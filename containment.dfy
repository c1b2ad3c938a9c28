/**
 * The containment closure built by GetContainedIn (util/util.go), from the
 * decoded type-relation records on.
 *
 * Records whose predicate is "containedInPlace" are direct edges
 * child -> parent. The builder keeps an adjacency map `link` (child to the
 * list of its parents, in record order) and a table `result` keyed by
 * (child, ancestor), whose value lists the types strictly between them on the
 * path that wrote the entry last. Direct edges are seeded with []; then, for
 * every child, a FIFO worklist over its ancestors writes
 * result[(c, p)] := result[(c, curr)] + [curr] for each parent p of curr.
 *
 * The source keeps no visited set, so the worklist only stops when no cycle
 * is reachable: the model asks for an acyclic link map (a rank that falls
 * along every edge) and measures progress by the number of paths that leave
 * the nodes still on the worklist.
 */
module Containment {
  import opened Wrappers

  /** The only predicate the builder reads. */
  const ContainedInPlace: string := "containedInPlace"

  /** One decoded record of the type-relation file. */
  datatype TypeInfo = TypeInfo(pred: string, subType: string, objType: string)

  /** A (child, parent) key of the closure table. */
  datatype TypePair = TypePair(child: string, parent: string)

  type Link = map<string, seq<string>>
  type Table = map<TypePair, seq<string>>

  predicate IsContainment(info: TypeInfo) {
    info.pred == ContainedInPlace
  }

  /** `link[x]` in Go: a missing key reads as the nil (empty) slice. */
  function Parents(link: Link, x: string): seq<string> {
    if x in link then link[x] else []
  }

  /** `result[tp]` in Go: a missing key reads as the nil (empty) slice. */
  function Get(table: Table, tp: TypePair): seq<string> {
    if tp in table then table[tp] else []
  }

  /** `v, ok := result[tp]`. */
  function Lookup(table: Table, tp: TypePair): Option<seq<string>> {
    if tp in table then Some(table[tp]) else None
  }

  // ---------------------------------------------------------------------
  // The first pass over the records
  // ---------------------------------------------------------------------

  /** A direct containment fact stated by some record. */
  ghost predicate DirectEdge(ti: seq<TypeInfo>, c: string, p: string) {
    exists i :: 0 <= i < |ti| && IsContainment(ti[i]) && ti[i].subType == c && ti[i].objType == p
  }

  /** The adjacency map after the first loop over the records. */
  function BuildLink(ti: seq<TypeInfo>): Link
    decreases |ti|
  {
    if ti == [] then map[]
    else
      var link := BuildLink(ti[..|ti| - 1]);
      var info := ti[|ti| - 1];
      if IsContainment(info) then link[info.subType := Parents(link, info.subType) + [info.objType]]
      else link
  }

  /** The table after the first loop: every direct edge mapped to []. */
  function DirectTable(ti: seq<TypeInfo>): Table
    decreases |ti|
  {
    if ti == [] then map[]
    else
      var table := DirectTable(ti[..|ti| - 1]);
      var info := ti[|ti| - 1];
      if IsContainment(info) then table[TypePair(info.subType, info.objType) := []]
      else table
  }

  /** The parents recorded in `link` are exactly the direct edges of the records. */
  lemma {:induction false} BuildLinkEdges(ti: seq<TypeInfo>, c: string, p: string)
    ensures p in Parents(BuildLink(ti), c) <==> DirectEdge(ti, c, p)
    decreases |ti|
  {
    if ti != [] {
      var pre := ti[..|ti| - 1];
      var info := ti[|ti| - 1];
      BuildLinkEdges(pre, c, p);
      if DirectEdge(ti, c, p) {
        var i :| 0 <= i < |ti| && IsContainment(ti[i]) && ti[i].subType == c && ti[i].objType == p;
        if i < |ti| - 1 {
          assert pre[i] == ti[i];
        }
      }
      if DirectEdge(pre, c, p) {
        var i :| 0 <= i < |pre| && IsContainment(pre[i]) && pre[i].subType == c && pre[i].objType == p;
        assert ti[i] == pre[i];
      }
    }
  }

  /** A child is a key of `link` exactly when some record names it as a subtype. */
  lemma {:induction false} BuildLinkKeys(ti: seq<TypeInfo>, c: string)
    ensures c in BuildLink(ti) <==> exists i :: 0 <= i < |ti| && IsContainment(ti[i]) && ti[i].subType == c
    decreases |ti|
  {
    if ti != [] {
      var pre := ti[..|ti| - 1];
      BuildLinkKeys(pre, c);
      if exists i :: 0 <= i < |ti| && IsContainment(ti[i]) && ti[i].subType == c {
        var i :| 0 <= i < |ti| && IsContainment(ti[i]) && ti[i].subType == c;
        if i < |ti| - 1 {
          assert pre[i] == ti[i];
        }
      }
      if exists i :: 0 <= i < |pre| && IsContainment(pre[i]) && pre[i].subType == c {
        var i :| 0 <= i < |pre| && IsContainment(pre[i]) && pre[i].subType == c;
        assert ti[i] == pre[i];
      }
    }
  }

  /** The seeded table holds [] for exactly the edges that `link` records. */
  lemma {:induction false} DirectTableMatchesLink(ti: seq<TypeInfo>)
    ensures forall tp: TypePair :: tp in DirectTable(ti) <==> tp.parent in Parents(BuildLink(ti), tp.child)
    ensures forall tp: TypePair :: tp in DirectTable(ti) ==> DirectTable(ti)[tp] == []
    decreases |ti|
  {
    if ti != [] {
      DirectTableMatchesLink(ti[..|ti| - 1]);
    }
  }

  // ---------------------------------------------------------------------
  // Chains, reachability and acyclicity
  // ---------------------------------------------------------------------

  /** `path` follows direct edges of `link` from its first to its last element. */
  ghost predicate IsChain(link: Link, path: seq<string>) {
    |path| >= 2 && forall i :: 0 <= i < |path| - 1 ==> path[i + 1] in Parents(link, path[i])
  }

  /** `p` is reachable from `c` along one or more edges. */
  ghost predicate Reachable(link: Link, c: string, p: string) {
    exists path :: IsChain(link, path) && path[0] == c && path[|path| - 1] == p
  }

  /** Every parent has a strictly smaller rank than its child. */
  ghost predicate Ranked(link: Link, rank: map<string, nat>) {
    forall x :: x in link ==> x in rank && forall p :: p in link[x] ==> p in rank && rank[p] < rank[x]
  }

  /** The containment edges have no cycle: some rank falls along every edge. */
  ghost predicate Acyclic(link: Link) {
    exists rank :: Ranked(link, rank)
  }

  ghost function SomeRank(link: Link): (rank: map<string, nat>)
    requires Acyclic(link)
    ensures Ranked(link, rank)
  {
    var rank :| Ranked(link, rank); rank
  }

  ghost function Height(rank: map<string, nat>, x: string): nat {
    if x in rank then rank[x] else 0
  }

  /** Rank falls strictly along an edge. */
  lemma ParentBelow(link: Link, rank: map<string, nat>, x: string, p: string)
    requires Ranked(link, rank)
    requires p in Parents(link, x)
    ensures Height(rank, p) < Height(rank, x)
  {
  }

  /** No type is its own direct parent. */
  lemma NoSelfParent(link: Link, rank: map<string, nat>, x: string)
    requires Ranked(link, rank)
    ensures x !in Parents(link, x)
  {
  }

  /** Along a chain of an acyclic map the rank falls, so no chain closes a cycle. */
  lemma {:induction false} ChainRankFalls(link: Link, rank: map<string, nat>, path: seq<string>)
    requires Ranked(link, rank)
    requires IsChain(link, path)
    ensures Height(rank, path[|path| - 1]) < Height(rank, path[0])
    decreases |path|
  {
    var n := |path|;
    ParentBelow(link, rank, path[n - 2], path[n - 1]);
    if n > 2 {
      var pre := path[..n - 1];
      assert forall i :: 0 <= i < |pre| - 1 ==> pre[i + 1] in Parents(link, pre[i]) by {
        forall i | 0 <= i < |pre| - 1 ensures pre[i + 1] in Parents(link, pre[i]) {
          assert pre[i] == path[i] && pre[i + 1] == path[i + 1];
        }
      }
      ChainRankFalls(link, rank, pre);
    }
  }

  /**
   * A type recorded as contained in itself: no rank falls along that edge,
   * and one worklist step puts the type straight back, so the source's
   * `for len(morep) > 0` loop never ends on it.
   */
  lemma SelfLoopRequeues(x: string)
    ensures !Acyclic(map[x := [x]])
    ensures var link := map[x := [x]]; [x][1..] + Parents(link, x) == [x]
  {
  }

  /** An acyclic containment map has no cycle: no chain returns to where it started. */
  lemma AcyclicHasNoCycle(link: Link, path: seq<string>)
    requires Acyclic(link)
    requires IsChain(link, path)
    ensures path[0] != path[|path| - 1]
  {
    ChainRankFalls(link, SomeRank(link), path);
  }

  // ---------------------------------------------------------------------
  // Termination measure of the worklist: paths leaving the queued nodes
  // ---------------------------------------------------------------------

  /** The number of paths (of length zero or more) that start at `x`. */
  ghost function PathCount(link: Link, rank: map<string, nat>, x: string): nat
    requires Ranked(link, rank)
    decreases Height(rank, x), 1
  {
    1 + ParentsLoad(link, rank, x, 0)
  }

  ghost function ParentsLoad(link: Link, rank: map<string, nat>, x: string, i: nat): nat
    requires Ranked(link, rank)
    requires i <= |Parents(link, x)|
    decreases Height(rank, x), 0, |Parents(link, x)| - i
  {
    if i == |Parents(link, x)| then 0
    else
      ParentBelow(link, rank, x, Parents(link, x)[i]);
      PathCount(link, rank, Parents(link, x)[i]) + ParentsLoad(link, rank, x, i + 1)
  }

  /** The iterations still owed to a worklist. */
  ghost function Load(link: Link, rank: map<string, nat>, ws: seq<string>): nat
    requires Ranked(link, rank)
  {
    if ws == [] then 0 else PathCount(link, rank, ws[0]) + Load(link, rank, ws[1..])
  }

  lemma {:induction false} LoadAppend(link: Link, rank: map<string, nat>, a: seq<string>, b: seq<string>)
    requires Ranked(link, rank)
    ensures Load(link, rank, a + b) == Load(link, rank, a) + Load(link, rank, b)
    decreases |a|
  {
    if a == [] {
      assert a + b == b;
    } else {
      assert (a + b)[0] == a[0] && (a + b)[1..] == a[1..] + b;
      LoadAppend(link, rank, a[1..], b);
    }
  }

  lemma {:induction false} ParentsLoadIsLoad(link: Link, rank: map<string, nat>, x: string, i: nat)
    requires Ranked(link, rank)
    requires i <= |Parents(link, x)|
    ensures ParentsLoad(link, rank, x, i) == Load(link, rank, Parents(link, x)[i..])
    decreases |Parents(link, x)| - i
  {
    var ps := Parents(link, x);
    if i < |ps| {
      ParentsLoadIsLoad(link, rank, x, i + 1);
      assert ps[i..][0] == ps[i] && ps[i..][1..] == ps[i + 1..];
    }
  }

  /** Popping one node and queueing its parents shrinks the measure by one. */
  lemma LoadStep(link: Link, rank: map<string, nat>, ws: seq<string>)
    requires Ranked(link, rank)
    requires ws != []
    ensures Load(link, rank, ws[1..] + Parents(link, ws[0])) < Load(link, rank, ws)
  {
    LoadAppend(link, rank, ws[1..], Parents(link, ws[0]));
    ParentsLoadIsLoad(link, rank, ws[0], 0);
    assert Parents(link, ws[0])[0..] == Parents(link, ws[0]);
  }

  // ---------------------------------------------------------------------
  // The worklist, as a function
  // ---------------------------------------------------------------------

  /** The inner `for _, p := range link[curr]` loop for child `c`. */
  function Extend(table: Table, c: string, curr: string, ps: seq<string>): Table
    decreases |ps|
  {
    if ps == [] then table
    else Extend(table[TypePair(c, ps[0]) := Get(table, TypePair(c, curr)) + [curr]], c, curr, ps[1..])
  }

  /** The `for len(morep) > 0` loop for child `c`, from worklist `morep`. */
  function Walk(link: Link, c: string, morep: seq<string>, table: Table): Table
    requires Acyclic(link)
    decreases Load(link, SomeRank(link), morep)
  {
    if morep == [] then table
    else
      var curr := morep[0];
      LoadStep(link, SomeRank(link), morep);
      Walk(link, c, morep[1..] + Parents(link, curr), Extend(table, c, curr, Parents(link, curr)))
  }

  /**
   * The entry that GetContainedIn leaves under `tp`: the worklist of
   * tp.child run on the seeded table. It does not depend on the order in
   * which the children are processed; GetContainedIn below proves that.
   */
  function ClosureEntry(ti: seq<TypeInfo>, tp: TypePair): Option<seq<string>>
    requires Acyclic(BuildLink(ti))
  {
    var link := BuildLink(ti);
    Lookup(Walk(link, tp.child, Parents(link, tp.child), DirectTable(ti)), tp)
  }

  // ---------------------------------------------------------------------
  // Lemmas about Extend and Walk
  // ---------------------------------------------------------------------

  /** Two tables hold the same entries for child `c`. */
  ghost predicate AgreeOn(t1: Table, t2: Table, c: string) {
    forall tp: TypePair :: tp.child == c ==> Lookup(t1, tp) == Lookup(t2, tp)
  }

  /** Extend writes (c, p) for each p of ps, all with the value read for (c, curr). */
  lemma {:induction false} ExtendSpec(table: Table, c: string, curr: string, ps: seq<string>)
    requires curr !in ps
    ensures forall tp: TypePair :: Lookup(Extend(table, c, curr, ps), tp) ==
              (if tp.child == c && tp.parent in ps then Some(Get(table, TypePair(c, curr)) + [curr])
               else Lookup(table, tp))
    decreases |ps|
  {
    if ps != [] {
      var t1 := table[TypePair(c, ps[0]) := Get(table, TypePair(c, curr)) + [curr]];
      assert Get(t1, TypePair(c, curr)) == Get(table, TypePair(c, curr));
      ExtendSpec(t1, c, curr, ps[1..]);
      assert forall q :: q in ps <==> q == ps[0] || q in ps[1..];
    }
  }

  /** A walk for `c` writes only entries of `c` and reads only entries of `c`. */
  lemma {:induction false} WalkLocality(link: Link, c: string, morep: seq<string>, t1: Table, t2: Table)
    requires Acyclic(link)
    requires AgreeOn(t1, t2, c)
    ensures AgreeOn(Walk(link, c, morep, t1), Walk(link, c, morep, t2), c)
    ensures forall tp: TypePair :: tp.child != c ==> Lookup(Walk(link, c, morep, t1), tp) == Lookup(t1, tp)
    decreases Load(link, SomeRank(link), morep)
  {
    if morep != [] {
      var rank := SomeRank(link);
      var curr := morep[0];
      var ps := Parents(link, curr);
      NoSelfParent(link, rank, curr);
      LoadStep(link, rank, morep);
      ExtendSpec(t1, c, curr, ps);
      ExtendSpec(t2, c, curr, ps);
      assert Lookup(t1, TypePair(c, curr)) == Lookup(t2, TypePair(c, curr));
      WalkLocality(link, c, morep[1..] + ps, Extend(t1, c, curr, ps), Extend(t2, c, curr, ps));
    }
  }

  /**
   * What the worklist of `c` keeps true: every queued node has an entry;
   * every entry of `c` spells a chain of direct edges from c to its key;
   * every entry of `c` whose key has left the queue has its parents entered.
   */
  ghost predicate WalkInv(link: Link, c: string, morep: seq<string>, table: Table) {
    (forall x :: x in morep ==> TypePair(c, x) in table) &&
    (forall tp: TypePair :: tp in table && tp.child == c ==> IsChain(link, [c] + table[tp] + [tp.parent])) &&
    (forall tp: TypePair :: tp in table && tp.child == c ==>
       tp.parent in morep || forall q :: q in Parents(link, tp.parent) ==> TypePair(c, q) in table)
  }

  lemma ChainSnoc(link: Link, path: seq<string>, p: string)
    requires IsChain(link, path)
    requires p in Parents(link, path[|path| - 1])
    ensures IsChain(link, path + [p])
  {
    var s := path + [p];
    forall i | 0 <= i < |s| - 1 ensures s[i + 1] in Parents(link, s[i]) {
      if i < |path| - 1 {
        assert s[i] == path[i] && s[i + 1] == path[i + 1];
      }
    }
  }

  /** One iteration of the worklist keeps WalkInv and keeps every key. */
  lemma WalkStep(link: Link, c: string, morep: seq<string>, table: Table)
    requires Acyclic(link)
    requires morep != []
    requires WalkInv(link, c, morep, table)
    ensures WalkInv(link, c, morep[1..] + Parents(link, morep[0]),
                    Extend(table, c, morep[0], Parents(link, morep[0])))
    ensures forall tp: TypePair :: tp in table ==> tp in Extend(table, c, morep[0], Parents(link, morep[0]))
  {
    var curr := morep[0];
    var ps := Parents(link, curr);
    var m' := morep[1..] + ps;
    var t' := Extend(table, c, curr, ps);
    NoSelfParent(link, SomeRank(link), curr);
    ExtendSpec(table, c, curr, ps);
    assert TypePair(c, curr) in table;
    var v := table[TypePair(c, curr)] + [curr];
    assert IsChain(link, [c] + table[TypePair(c, curr)] + [curr]);
    forall tp: TypePair | tp in table ensures tp in t' {
      assert Lookup(t', tp).Some?;
    }
    forall x | x in m' ensures TypePair(c, x) in t' {
      assert Lookup(t', TypePair(c, x)).Some?;
    }
    forall tp: TypePair | tp in t' && tp.child == c ensures IsChain(link, [c] + t'[tp] + [tp.parent]) {
      if tp.parent in ps {
        assert Lookup(t', tp) == Some(v);
        ChainSnoc(link, [c] + table[TypePair(c, curr)] + [curr], tp.parent);
        assert [c] + t'[tp] + [tp.parent] == [c] + table[TypePair(c, curr)] + [curr] + [tp.parent];
      } else {
        assert Lookup(t', tp) == Lookup(table, tp);
      }
    }
    forall tp: TypePair | tp in t' && tp.child == c
      ensures tp.parent in m' || forall q :: q in Parents(link, tp.parent) ==> TypePair(c, q) in t'
    {
      if tp.parent !in ps {
        assert Lookup(t', tp) == Lookup(table, tp);
        assert tp in table;
        if tp.parent in morep && tp.parent != curr {
          assert tp.parent in morep[1..];
        }
      }
    }
  }

  lemma {:induction false} WalkPreserves(link: Link, c: string, morep: seq<string>, table: Table)
    requires Acyclic(link)
    requires WalkInv(link, c, morep, table)
    ensures WalkInv(link, c, [], Walk(link, c, morep, table))
    ensures forall tp: TypePair :: tp in table ==> tp in Walk(link, c, morep, table)
    decreases Load(link, SomeRank(link), morep)
  {
    if morep != [] {
      var curr := morep[0];
      var ps := Parents(link, curr);
      LoadStep(link, SomeRank(link), morep);
      WalkStep(link, c, morep, table);
      WalkPreserves(link, c, morep[1..] + ps, Extend(table, c, curr, ps));
    }
  }

  /** A table closed under parents for child `c` holds every ancestor of `c`. */
  lemma {:induction false} ClosedHoldsReachable(link: Link, c: string, table: Table, path: seq<string>)
    requires forall p :: p in Parents(link, c) ==> TypePair(c, p) in table
    requires forall tp: TypePair :: tp in table && tp.child == c ==>
               forall q :: q in Parents(link, tp.parent) ==> TypePair(c, q) in table
    requires IsChain(link, path) && path[0] == c
    ensures TypePair(c, path[|path| - 1]) in table
    decreases |path|
  {
    var n := |path|;
    if n > 2 {
      var pre := path[..n - 1];
      assert forall i :: 0 <= i < |pre| - 1 ==> pre[i + 1] in Parents(link, pre[i]) by {
        forall i | 0 <= i < |pre| - 1 ensures pre[i + 1] in Parents(link, pre[i]) {
          assert pre[i] == path[i] && pre[i + 1] == path[i + 1];
        }
      }
      ClosedHoldsReachable(link, c, table, pre);
      assert path[n - 1] in Parents(link, path[n - 2]);
    } else {
      assert path[1] in Parents(link, path[0]);
    }
  }

  /** The seeded table satisfies the worklist invariant for every child. */
  lemma WalkInvInitially(ti: seq<TypeInfo>, c: string)
    ensures WalkInv(BuildLink(ti), c, Parents(BuildLink(ti), c), DirectTable(ti))
  {
    var link := BuildLink(ti);
    DirectTableMatchesLink(ti);
    forall tp: TypePair | tp in DirectTable(ti) && tp.child == c
      ensures IsChain(link, [c] + DirectTable(ti)[tp] + [tp.parent])
    {
      assert [c] + DirectTable(ti)[tp] + [tp.parent] == [c, tp.parent];
    }
  }

  // ---------------------------------------------------------------------
  // What the closure table holds
  // ---------------------------------------------------------------------

  /**
   * Keys: (c, p) has an entry exactly when p is reachable from c along one
   * or more containment edges (the direct edges and every longer chain).
   * Values: an entry L for (c, p) spells one chain c, L[0], ..., p of direct
   * edges, so later writes replace earlier paths rather than extend them.
   */
  lemma ClosureEntryIsChain(ti: seq<TypeInfo>, tp: TypePair)
    requires Acyclic(BuildLink(ti))
    ensures ClosureEntry(ti, tp).Some? <==> Reachable(BuildLink(ti), tp.child, tp.parent)
    ensures ClosureEntry(ti, tp).Some? ==>
      IsChain(BuildLink(ti), [tp.child] + ClosureEntry(ti, tp).value + [tp.parent])
  {
    var link := BuildLink(ti);
    WalkInvInitially(ti, tp.child);
    assert forall p :: p in Parents(link, tp.child) ==> TypePair(tp.child, p) in DirectTable(ti) by {
      DirectTableMatchesLink(ti);
    }
    WalkClosure(link, tp.child, DirectTable(ti), tp.parent);
  }

  /** The walk of `c` from a table satisfying the invariant holds exactly the ancestors of `c`, each along a chain. */
  lemma WalkClosure(link: Link, c: string, table: Table, p: string)
    requires Acyclic(link)
    requires WalkInv(link, c, Parents(link, c), table)
    requires forall q :: q in Parents(link, c) ==> TypePair(c, q) in table
    ensures TypePair(c, p) in Walk(link, c, Parents(link, c), table) <==> Reachable(link, c, p)
    ensures TypePair(c, p) in Walk(link, c, Parents(link, c), table) ==>
      IsChain(link, [c] + Walk(link, c, Parents(link, c), table)[TypePair(c, p)] + [p])
  {
    var w := Walk(link, c, Parents(link, c), table);
    WalkPreserves(link, c, Parents(link, c), table);
    if TypePair(c, p) in w {
      var path := [c] + w[TypePair(c, p)] + [p];
      assert path[0] == c && path[|path| - 1] == p;
      assert IsChain(link, path);
    }
    if Reachable(link, c, p) {
      var path :| IsChain(link, path) && path[0] == c && path[|path| - 1] == p;
      ClosedHoldsReachable(link, c, w, path);
    }
  }

  /** Every containedInPlace record keeps a key in the table: no key is ever removed. */
  lemma DirectEdgeHasEntry(ti: seq<TypeInfo>, c: string, p: string)
    requires Acyclic(BuildLink(ti))
    requires DirectEdge(ti, c, p)
    ensures ClosureEntry(ti, TypePair(c, p)).Some?
  {
    BuildLinkEdges(ti, c, p);
    assert IsChain(BuildLink(ti), [c, p]);
    ClosureEntryIsChain(ti, TypePair(c, p));
  }

  /**
   * A record with another predicate changes nothing, wherever it stands:
   * the adjacency map (parent order included), the seeded table and so
   * every closure entry are those of the records without it.
   */
  lemma OtherPredicateIgnored(ti: seq<TypeInfo>, k: nat, info: TypeInfo, tp: TypePair)
    requires !IsContainment(info) && k <= |ti|
    requires Acyclic(BuildLink(ti))
    ensures BuildLink(ti[..k] + [info] + ti[k..]) == BuildLink(ti)
    ensures DirectTable(ti[..k] + [info] + ti[k..]) == DirectTable(ti)
    ensures Acyclic(BuildLink(ti[..k] + [info] + ti[k..])) &&
            ClosureEntry(ti[..k] + [info] + ti[k..], tp) == ClosureEntry(ti, tp)
  {
    InsertIgnored(ti, k, info);
  }

  lemma {:induction false} InsertIgnored(ti: seq<TypeInfo>, k: nat, info: TypeInfo)
    requires !IsContainment(info) && k <= |ti|
    ensures BuildLink(ti[..k] + [info] + ti[k..]) == BuildLink(ti)
    ensures DirectTable(ti[..k] + [info] + ti[k..]) == DirectTable(ti)
    decreases |ti| - k
  {
    var ti' := ti[..k] + [info] + ti[k..];
    if k == |ti| {
      assert ti'[..|ti'| - 1] == ti;
    } else {
      var pre := ti[..|ti| - 1];
      InsertIgnored(pre, k, info);
      InsertShape(ti, k, info);
    }
  }

  /** Inserting before the last record: the last record stays last. */
  lemma InsertShape(ti: seq<TypeInfo>, k: nat, info: TypeInfo)
    requires k < |ti|
    ensures var ti' := ti[..k] + [info] + ti[k..];
            var pre := ti[..|ti| - 1];
            ti'[..|ti'| - 1] == pre[..k] + [info] + pre[k..] && ti'[|ti'| - 1] == ti[|ti| - 1]
  {
    var pre := ti[..|ti| - 1];
    assert ti[..k] == pre[..k] && ti[k..] == pre[k..] + [ti[|ti| - 1]];
    assert ti[..k] + [info] + ti[k..] == (pre[..k] + [info] + pre[k..]) + [ti[|ti| - 1]];
  }

  // ---------------------------------------------------------------------
  // The builder itself
  // ---------------------------------------------------------------------

  /**
   * GetContainedIn after decoding: the two loops of the source, with Go's
   * unordered `range link` modelled by picking any child not yet processed.
   * The result is the same whichever order is picked.
   */
  method GetContainedIn(ti: seq<TypeInfo>) returns (result: Table)
    requires Acyclic(BuildLink(ti))
    ensures forall tp: TypePair :: Lookup(result, tp) == ClosureEntry(ti, tp)
  {
    result := map[];
    var link: Link := map[];
    for i := 0 to |ti|
      invariant link == BuildLink(ti[..i])
      invariant result == DirectTable(ti[..i])
    {
      assert ti[..i + 1][..i] == ti[..i];
      var info := ti[i];
      if info.pred == ContainedInPlace {
        link := link[info.subType := Parents(link, info.subType) + [info.objType]];
        result := result[TypePair(info.subType, info.objType) := []];
      }
    }
    assert ti[..|ti|] == ti;
    ghost var seeded := result;

    var todo := link.Keys;
    while todo != {}
      invariant todo <= link.Keys
      invariant forall tp: TypePair :: tp.child in link && tp.child !in todo ==>
                  Lookup(result, tp) == ClosureEntry(ti, tp)
      invariant forall tp: TypePair :: !(tp.child in link && tp.child !in todo) ==>
                  Lookup(result, tp) == Lookup(seeded, tp)
      decreases todo
    {
      var c :| c in todo;
      WalkLocality(link, c, link[c], result, seeded);
      result := WalkChild(link, c, result);
      todo := todo - {c};
    }
  }

  /** The worklist of one child `c`: `morep` starts as the parents of c. */
  method WalkChild(link: Link, c: string, table: Table) returns (result: Table)
    requires Acyclic(link) && c in link
    ensures result == Walk(link, c, link[c], table)
  {
    result := table;
    var morep := link[c];
    while |morep| > 0
      invariant Walk(link, c, morep, result) == Walk(link, c, link[c], table)
      decreases Load(link, SomeRank(link), morep)
    {
      ghost var m0 := morep;
      var curr := morep[0];
      morep := morep[1..];
      result, morep := ExtendParents(link, c, curr, result, morep);
      LoadStep(link, SomeRank(link), m0);
    }
  }

  /** The inner loop: (c, p) := (c, curr) ++ [curr] for every parent p of curr, queueing p. */
  method ExtendParents(link: Link, c: string, curr: string, table: Table, queue: seq<string>)
    returns (result: Table, morep: seq<string>)
    ensures result == Extend(table, c, curr, Parents(link, curr))
    ensures morep == queue + Parents(link, curr)
  {
    result, morep := table, queue;
    var ps := Parents(link, curr);
    for j := 0 to |ps|
      invariant morep == queue + ps[..j]
      invariant Extend(result, c, curr, ps[j..]) == Extend(table, c, curr, ps)
    {
      assert ps[j..][0] == ps[j] && ps[j..][1..] == ps[j + 1..];
      assert ps[..j + 1] == ps[..j] + [ps[j]];
      result := result[TypePair(c, ps[j]) := Get(result, TypePair(c, curr)) + [curr]];
      morep := morep + [ps[j]];
    }
    assert ps[..|ps|] == ps;
  }

  // ---------------------------------------------------------------------
  // End nodes (computed by the source but not returned)
  // ---------------------------------------------------------------------

  /** The `all` list: subtype then object type of every containment record. */
  function AllTypes(ti: seq<TypeInfo>): seq<string>
    decreases |ti|
  {
    if ti == [] then []
    else
      var info := ti[|ti| - 1];
      AllTypes(ti[..|ti| - 1]) + (if IsContainment(info) then [info.subType, info.objType] else [])
  }

  /** The types of `all` that have no entry in `link`, in order. */
  function KeepParentless(all: seq<string>, link: Link): (r: seq<string>)
    ensures forall x :: x in r <==> x in all && x !in link
  {
    if all == [] then []
    else (if all[0] in link then [] else [all[0]]) + KeepParentless(all[1..], link)
  }

  lemma {:induction false} AllTypesMembers(ti: seq<TypeInfo>, x: string)
    ensures x in AllTypes(ti) <==>
      exists i :: 0 <= i < |ti| && IsContainment(ti[i]) && (ti[i].subType == x || ti[i].objType == x)
    decreases |ti|
  {
    if ti != [] {
      var pre := ti[..|ti| - 1];
      AllTypesMembers(pre, x);
      if exists i :: 0 <= i < |ti| && IsContainment(ti[i]) && (ti[i].subType == x || ti[i].objType == x) {
        var i :| 0 <= i < |ti| && IsContainment(ti[i]) && (ti[i].subType == x || ti[i].objType == x);
        if i < |ti| - 1 {
          assert pre[i] == ti[i];
        }
      }
      if exists i :: 0 <= i < |pre| && IsContainment(pre[i]) && (pre[i].subType == x || pre[i].objType == x) {
        var i :| 0 <= i < |pre| && IsContainment(pre[i]) && (pre[i].subType == x || pre[i].objType == x);
        assert ti[i] == pre[i];
      }
    }
  }

  /** The `endNodes` list of GetContainedIn. */
  function EndNodes(ti: seq<TypeInfo>): seq<string> {
    KeepParentless(AllTypes(ti), BuildLink(ti))
  }

  /** End nodes are the types named by containment records that are never a subtype. */
  lemma EndNodesAreTops(ti: seq<TypeInfo>, x: string)
    ensures x in EndNodes(ti) <==>
      (exists i :: 0 <= i < |ti| && IsContainment(ti[i]) && (ti[i].subType == x || ti[i].objType == x)) &&
      (forall i :: 0 <= i < |ti| && IsContainment(ti[i]) ==> ti[i].subType != x)
  {
    AllTypesMembers(ti, x);
    BuildLinkKeys(ti, x);
  }

  // ---------------------------------------------------------------------
  // Worked examples
  // ---------------------------------------------------------------------

  /** The records of a chain City -> County -> State. */
  function ChainRecords(): seq<TypeInfo> {
    [TypeInfo(ContainedInPlace, "City", "County"), TypeInfo(ContainedInPlace, "County", "State")]
  }

  lemma ChainLink()
    ensures BuildLink(ChainRecords()) == map["City" := ["County"], "County" := ["State"]]
    ensures DirectTable(ChainRecords()) == map[TypePair("City", "County") := [], TypePair("County", "State") := []]
  {
    var ti := ChainRecords();
    assert ti[..1] == [ti[0]] && ti[..1][..0] == [];
    var none: seq<string> := [];
    assert none + ["County"] == ["County"] && none + ["State"] == ["State"];
    assert BuildLink(ti[..0]) == map[];
    assert BuildLink(ti[..1]) == map["City" := ["County"]];
    assert DirectTable(ti[..1]) == map[TypePair("City", "County") := []];
  }

  lemma ChainEndNodes()
    ensures EndNodes(ChainRecords()) == ["State"]
  {
    var ti := ChainRecords();
    ChainLink();
    var link := BuildLink(ti);
    assert ti[..1] == [ti[0]];
    assert AllTypes(ti[..1]) == ["City", "County"];
    assert AllTypes(ti) == ["City", "County", "County", "State"];
    assert KeepParentless(["State"], link) == ["State"];
    assert KeepParentless(["County", "State"], link) == ["State"];
    assert KeepParentless(["County", "County", "State"], link) == ["State"];
  }

  lemma ChainAcyclic()
    ensures Acyclic(BuildLink(ChainRecords()))
  {
    ChainLink();
    assert Ranked(BuildLink(ChainRecords()), map["City" := 2, "County" := 1, "State" := 0]);
  }

  lemma ChainCityEntries()
    ensures Acyclic(BuildLink(ChainRecords()))
    ensures ClosureEntry(ChainRecords(), TypePair("City", "County")) == Some([])
    ensures ClosureEntry(ChainRecords(), TypePair("City", "State")) == Some(["County"])
  {
    ChainAcyclic();
    ChainLink();
    var link := BuildLink(ChainRecords());
    assert Parents(link, "City") == ["County"];
    ChainWalk(link, DirectTable(ChainRecords()));
  }

  lemma ChainOtherEntries()
    ensures Acyclic(BuildLink(ChainRecords()))
    ensures ClosureEntry(ChainRecords(), TypePair("County", "State")) == Some([])
    ensures ClosureEntry(ChainRecords(), TypePair("State", "City")) == None
  {
    ChainAcyclic();
    ChainLink();
    var link := BuildLink(ChainRecords());
    assert Parents(link, "County") == ["State"];
    assert Parents(link, "State") == [];
    ChainWalk(link, DirectTable(ChainRecords()));
  }

  /** City -> County -> State: two direct entries and one two-step entry. */
  lemma ChainExample()
    ensures var ti := ChainRecords();
            Acyclic(BuildLink(ti)) &&
            ClosureEntry(ti, TypePair("City", "County")) == Some([]) &&
            ClosureEntry(ti, TypePair("County", "State")) == Some([]) &&
            ClosureEntry(ti, TypePair("City", "State")) == Some(["County"]) &&
            ClosureEntry(ti, TypePair("State", "City")) == None &&
            EndNodes(ti) == ["State"]
  {
    ChainCityEntries();
    ChainOtherEntries();
    ChainEndNodes();
  }

  lemma ChainWalk(link: Link, t0: Table)
    requires link == map["City" := ["County"], "County" := ["State"]]
    requires t0 == map[TypePair("City", "County") := [], TypePair("County", "State") := []]
    requires Acyclic(link)
    ensures Walk(link, "City", ["County"], t0) == t0[TypePair("City", "State") := ["County"]]
    ensures Walk(link, "County", ["State"], t0) == t0
    ensures Walk(link, "State", [], t0) == t0
  {
    var t1 := Extend(t0, "City", "County", ["State"]);
    var none: seq<string> := [];
    assert none + ["County"] == ["County"];
    assert t1 == t0[TypePair("City", "State") := ["County"]];
    assert Walk(link, "City", ["County"], t0) == Walk(link, "City", [] + ["State"], t1);
    assert [] + ["State"] == ["State"];
    assert Extend(t1, "City", "State", []) == t1;
    assert Walk(link, "City", ["State"], t1) == Walk(link, "City", [], t1);
    assert Walk(link, "County", ["State"], t0) == Walk(link, "County", [], t0);
  }

  /** The records of a diamond A -> B -> D, A -> C -> D. */
  function DiamondRecords(): seq<TypeInfo> {
    [TypeInfo(ContainedInPlace, "A", "B"), TypeInfo(ContainedInPlace, "A", "C"),
     TypeInfo(ContainedInPlace, "B", "D"), TypeInfo(ContainedInPlace, "C", "D")]
  }

  lemma DiamondLink()
    ensures BuildLink(DiamondRecords()) == map["A" := ["B", "C"], "B" := ["D"], "C" := ["D"]]
  {
    var ti := DiamondRecords();
    var none: seq<string> := [];
    assert none + ["B"] == ["B"] && none + ["D"] == ["D"];
    assert ti[..3][..2][..1][..0] == [] && ti[..3][..2] == ti[..2] && ti[..2][..1] == ti[..1];
    assert ["B"] + ["C"] == ["B", "C"];
    assert BuildLink(ti[..1]) == map["A" := ["B"]];
    assert BuildLink(ti[..2]) == map["A" := ["B", "C"]];
    assert BuildLink(ti[..3]) == map["A" := ["B", "C"], "B" := ["D"]];
  }

  lemma DiamondTable()
    ensures DirectTable(DiamondRecords()) ==
      map[TypePair("A", "B") := [], TypePair("A", "C") := [], TypePair("B", "D") := [], TypePair("C", "D") := []]
  {
    var ti := DiamondRecords();
    assert ti[..3][..2][..1][..0] == [] && ti[..3][..2] == ti[..2] && ti[..2][..1] == ti[..1];
    assert DirectTable(ti[..1]) == map[TypePair("A", "B") := []];
    assert DirectTable(ti[..2]) == map[TypePair("A", "B") := [], TypePair("A", "C") := []];
  }

  /**
   * In the diamond the worklist reaches D twice and the later write wins, so
   * (A, D) lists C alone: the two paths are not joined.
   */
  lemma DiamondExample()
    ensures Acyclic(BuildLink(DiamondRecords()))
    ensures ClosureEntry(DiamondRecords(), TypePair("A", "D")) == Some(["C"])
  {
    DiamondLink();
    DiamondTable();
    var link := BuildLink(DiamondRecords());
    assert Ranked(link, map["A" := 2, "B" := 1, "C" := 1, "D" := 0]);
    DiamondWalk(link, DirectTable(DiamondRecords()));
  }

  lemma DiamondWalk(link: Link, t0: Table)
    requires link == map["A" := ["B", "C"], "B" := ["D"], "C" := ["D"]]
    requires Acyclic(link)
    requires TypePair("A", "C") in t0 && t0[TypePair("A", "C")] == []
    requires TypePair("A", "B") in t0 && t0[TypePair("A", "B")] == []
    ensures Lookup(Walk(link, "A", ["B", "C"], t0), TypePair("A", "D")) == Some(["C"])
  {
    var none: seq<string> := [];
    assert none + ["B"] == ["B"] && none + ["C"] == ["C"];
    var t1 := Extend(t0, "A", "B", ["D"]);
    assert t1 == t0[TypePair("A", "D") := ["B"]];
    var t2 := Extend(t1, "A", "C", ["D"]);
    assert t2 == t1[TypePair("A", "D") := ["C"]];
    assert Walk(link, "A", ["B", "C"], t0) == Walk(link, "A", ["C", "D"], t1);
    assert Walk(link, "A", ["C", "D"], t1) == Walk(link, "A", ["D", "D"], t2);
    assert Walk(link, "A", ["D", "D"], t2) == Walk(link, "A", ["D"], t2);
    assert Walk(link, "A", ["D"], t2) == Walk(link, "A", [], t2);
  }

  /**
   * A direct edge can lose its []: with A -> B, A -> C and B -> C, the walk
   * of A rewrites (A, C) to [B] after seeding it with [].
   */
  lemma DirectEntryOverwritten()
    ensures var ti := OverwriteRecords();
            Acyclic(BuildLink(ti)) && DirectEdge(ti, "A", "C") &&
            ClosureEntry(ti, TypePair("A", "C")) == Some(["B"])
  {
    var ti := OverwriteRecords();
    assert IsContainment(ti[1]) && ti[1].subType == "A" && ti[1].objType == "C";
    OverwriteLink();
    var link := BuildLink(ti);
    assert Ranked(link, map["A" := 2, "B" := 1, "C" := 0]);
    OverwriteTable();
    OverwriteWalk(link, DirectTable(ti));
  }

  function OverwriteRecords(): seq<TypeInfo> {
    [TypeInfo(ContainedInPlace, "A", "B"), TypeInfo(ContainedInPlace, "A", "C"),
     TypeInfo(ContainedInPlace, "B", "C")]
  }

  lemma OverwriteLink()
    ensures BuildLink(OverwriteRecords()) == map["A" := ["B", "C"], "B" := ["C"]]
  {
    var ti := OverwriteRecords();
    var none: seq<string> := [];
    assert none + ["B"] == ["B"] && none + ["C"] == ["C"];
    assert ti[..2][..1][..0] == [] && ti[..2][..1] == ti[..1];
    assert ["B"] + ["C"] == ["B", "C"];
    assert BuildLink(ti[..1]) == map["A" := ["B"]];
    assert BuildLink(ti[..2]) == map["A" := ["B", "C"]];
  }

  lemma OverwriteTable()
    ensures TypePair("A", "B") in DirectTable(OverwriteRecords())
    ensures DirectTable(OverwriteRecords())[TypePair("A", "B")] == []
  {
    var ti := OverwriteRecords();
    assert ti[..2][..1][..0] == [] && ti[..2][..1] == ti[..1];
    assert DirectTable(ti[..1]) == map[TypePair("A", "B") := []];
    assert DirectTable(ti[..2]) == map[TypePair("A", "B") := [], TypePair("A", "C") := []];
  }

  lemma OverwriteWalk(link: Link, t0: Table)
    requires link == map["A" := ["B", "C"], "B" := ["C"]]
    requires Acyclic(link)
    requires TypePair("A", "B") in t0 && t0[TypePair("A", "B")] == []
    ensures Lookup(Walk(link, "A", ["B", "C"], t0), TypePair("A", "C")) == Some(["B"])
  {
    var none: seq<string> := [];
    assert none + ["B"] == ["B"];
    var t1 := Extend(t0, "A", "B", ["C"]);
    assert t1 == t0[TypePair("A", "C") := ["B"]];
    assert Walk(link, "A", ["B", "C"], t0) == Walk(link, "A", ["C", "C"], t1);
    assert Extend(t1, "A", "C", []) == t1;
    assert Walk(link, "A", ["C", "C"], t1) == Walk(link, "A", ["C"], t1);
    assert Walk(link, "A", ["C"], t1) == Walk(link, "A", [], t1);
  }
}

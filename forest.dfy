/** Parent links between records: `links[k]` is the parent of record `k`,
    None for a root. The store keeps them a finite forest; that is what
    makes every walk over dependents terminate. */
module Forest {

  import opened Wrappers

  /** Every parent link names an existing record (the foreign key). */
  predicate LinksInRange(links: seq<Option<nat>>)
  {
    forall k :: 0 <= k < |links| && links[k].Some? ==> links[k].value < |links|
  }

  /** The number of parent steps from `k` to its root, if the root is
      reached within `fuel` steps. */
  function Depth(links: seq<Option<nat>>, k: nat, fuel: nat): (d: Option<nat>)
    requires LinksInRange(links) && k < |links|
    ensures d.Some? ==> d.value <= fuel
    ensures d == Some(0) <==> links[k].None?
    decreases fuel
  {
    match links[k]
    case None => Some(0)
    case Some(p) =>
      if fuel == 0 then None
      else
        match Depth(links, p, fuel - 1)
        case None => None
        case Some(d) => Some(d + 1)
  }

  /** No record is its own ancestor: every record reaches a root within as
      many steps as there are records. */
  predicate Acyclic(links: seq<Option<nat>>)
  {
    LinksInRange(links) && forall k :: 0 <= k < |links| ==> Depth(links, k, |links|).Some?
  }

  function DepthOf(links: seq<Option<nat>>, k: nat): (d: nat)
    requires Acyclic(links) && k < |links|
    ensures d <= |links|
  {
    Depth(links, k, |links|).value
  }

  /** The termination measure of every downward walk: it is smaller for a
      child than for its parent (ChildIsLower). */
  function Height(links: seq<Option<nat>>, k: nat): nat
    requires Acyclic(links) && k < |links|
  {
    |links| - DepthOf(links, k)
  }

  /** More fuel does not change a depth that was already found. */
  lemma {:induction false} DepthFuel(links: seq<Option<nat>>, k: nat, fuel: nat, more: nat)
    requires LinksInRange(links) && k < |links|
    requires Depth(links, k, fuel).Some? && fuel <= more
    ensures Depth(links, k, more) == Depth(links, k, fuel)
    decreases fuel
  {
    match links[k]
    case None =>
    case Some(p) =>
      DepthFuel(links, p, fuel - 1, more - 1);
  }

  /** A child lies exactly one level below its parent. */
  lemma ChildDepth(links: seq<Option<nat>>, parent: nat, child: nat)
    requires Acyclic(links) && child < |links| && links[child] == Some(parent)
    ensures parent < |links|
    ensures DepthOf(links, child) == DepthOf(links, parent) + 1
  {
    assert Depth(links, child, |links|).Some?;
    assert Depth(links, parent, |links| - 1).Some?;
    DepthFuel(links, parent, |links| - 1, |links|);
  }

  lemma ChildIsLower(links: seq<Option<nat>>, parent: nat, child: nat)
    requires Acyclic(links) && child < |links| && links[child] == Some(parent)
    ensures parent < |links| && Height(links, child) < Height(links, parent)
  {
    ChildDepth(links, parent, child);
  }

  /** `k` lies in the subtree rooted at `a` (possibly `k == a`). */
  ghost predicate Descends(links: seq<Option<nat>>, k: nat, a: nat)
    requires Acyclic(links) && k < |links|
    decreases DepthOf(links, k)
  {
    k == a ||
    (links[k].Some? &&
     (ChildDepth(links, links[k].value, k);
      Descends(links, links[k].value, a)))
  }

  /** Ancestors lie higher than their descendants. */
  lemma {:induction false} DescendsIsDeeper(links: seq<Option<nat>>, k: nat, a: nat)
    requires Acyclic(links) && k < |links| && a < |links| && Descends(links, k, a)
    ensures DepthOf(links, k) >= DepthOf(links, a)
    decreases DepthOf(links, k)
  {
    if k != a {
      var p := links[k].value;
      ChildDepth(links, p, k);
      DescendsIsDeeper(links, p, a);
    }
  }

  /** The subtree of a child lies inside the subtree of its parent. */
  lemma {:induction false} DescendsThroughParent(links: seq<Option<nat>>, k: nat, child: nat, parent: nat)
    requires Acyclic(links) && k < |links| && child < |links| && links[child] == Some(parent)
    requires Descends(links, k, child)
    ensures Descends(links, k, parent)
    decreases DepthOf(links, k)
  {
    if k != child {
      var p := links[k].value;
      ChildDepth(links, p, k);
      DescendsThroughParent(links, p, child, parent);
    } else {
      ChildDepth(links, parent, child);
      assert Descends(links, parent, parent);
    }
  }

  /** Two different records with the same parent (or two different roots)
      have disjoint subtrees: neither lies below the other. */
  lemma SiblingsAreApart(links: seq<Option<nat>>, a: nat, b: nat)
    requires Acyclic(links) && a < |links| && b < |links|
    requires a != b && links[a] == links[b]
    ensures !Descends(links, b, a)
  {
    if Descends(links, b, a) {
      var p := links[b].value;
      ChildDepth(links, p, b);
      assert Descends(links, p, a);
      DescendsIsDeeper(links, p, a);
      ChildDepth(links, p, a);
      assert false;
    }
  }

  /** The ancestors of a record form a chain: two subtrees that share a
      record are nested. */
  lemma {:induction false} DescendsChain(links: seq<Option<nat>>, k: nat, a: nat, b: nat)
    requires Acyclic(links) && k < |links| && a < |links| && b < |links|
    requires Descends(links, k, a) && Descends(links, k, b)
    ensures Descends(links, a, b) || Descends(links, b, a)
    decreases DepthOf(links, k)
  {
    if k != a && k != b {
      var p := links[k].value;
      ChildDepth(links, p, k);
      DescendsChain(links, p, a, b);
    }
  }

  /** Subtrees of two different siblings (or of two different roots) share
      no record. */
  lemma SubtreesAreDisjoint(links: seq<Option<nat>>, k: nat, a: nat, b: nat)
    requires Acyclic(links) && k < |links| && a < |links| && b < |links|
    requires a != b && links[a] == links[b]
    requires Descends(links, k, a)
    ensures !Descends(links, k, b)
  {
    if Descends(links, k, b) {
      DescendsChain(links, k, a, b);
      SiblingsAreApart(links, a, b);
      SiblingsAreApart(links, b, a);
    }
  }

  /** A record strictly below `a` lies in the subtree of one of the children
      of `a`. */
  lemma {:induction false} BelowSomeChild(links: seq<Option<nat>>, k: nat, a: nat)
    requires Acyclic(links) && k < |links| && a < |links|
    requires Descends(links, k, a) && k != a
    ensures exists c :: 0 <= c < |links| && links[c] == Some(a) && Descends(links, k, c)
    decreases DepthOf(links, k)
  {
    var p := links[k].value;
    ChildDepth(links, p, k);
    if p == a {
      assert Descends(links, k, k);
    } else {
      BelowSomeChild(links, p, a);
      var c :| 0 <= c < |links| && links[c] == Some(a) && Descends(links, p, c);
      assert Descends(links, k, c);
    }
  }

  /** A parent does not lie in the subtree of its child. */
  lemma ParentNotBelowChild(links: seq<Option<nat>>, parent: nat, child: nat)
    requires Acyclic(links) && child < |links| && links[child] == Some(parent)
    ensures parent < |links| && !Descends(links, parent, child)
  {
    ChildDepth(links, parent, child);
    if Descends(links, parent, child) {
      DescendsIsDeeper(links, parent, child);
    }
  }

  /** Appending a record changes no depth of the records before it. */
  lemma {:induction false} DepthAppend(links: seq<Option<nat>>, p: Option<nat>, k: nat, fuel: nat)
    requires LinksInRange(links) && LinksInRange(links + [p]) && k < |links|
    requires Depth(links, k, fuel).Some?
    ensures Depth(links + [p], k, fuel) == Depth(links, k, fuel)
    decreases fuel
  {
    assert (links + [p])[k] == links[k];
    match links[k]
    case None =>
    case Some(q) =>
      DepthAppend(links, p, q, fuel - 1);
  }

  /** A new record linked to an existing one (or to none) keeps the forest
      acyclic. */
  lemma AppendLeafAcyclic(links: seq<Option<nat>>, p: Option<nat>)
    requires Acyclic(links) && (p.None? || p.value < |links|)
    ensures Acyclic(links + [p])
  {
    var grown := links + [p];
    assert LinksInRange(grown) by {
      forall k | 0 <= k < |grown| && grown[k].Some? ensures grown[k].value < |grown| {
        if k < |links| {
          assert grown[k] == links[k];
        }
      }
    }
    forall k | 0 <= k < |grown| ensures Depth(grown, k, |grown|).Some? {
      if k < |links| {
        DepthFuel(links, k, |links|, |grown|);
        DepthAppend(links, p, k, |grown|);
      } else if p.Some? {
        assert Depth(links, p.value, |links|).Some?;
        DepthAppend(links, p, p.value, |links|);
      }
    }
  }

  /** Once `k` is linked below a record of its own subtree, no record of
      that subtree reaches a root, whatever the fuel. */
  lemma {:induction false} LoopHasNoDepth(links: seq<Option<nat>>, k: nat, p: nat, j: nat, fuel: nat)
    requires Acyclic(links) && k < |links| && p < |links| && j < |links|
    requires Descends(links, p, k) && Descends(links, j, k)
    requires LinksInRange(links[k := Some(p)])
    ensures Depth(links[k := Some(p)], j, fuel).None?
    decreases fuel
  {
    var relinked := links[k := Some(p)];
    if fuel > 0 {
      if j == k {
        LoopHasNoDepth(links, k, p, p, fuel - 1);
      } else {
        var q := links[j].value;
        assert relinked[j] == Some(q);
        ChildDepth(links, q, j);
        LoopHasNoDepth(links, k, p, q, fuel - 1);
      }
    }
  }

  /** Linking a record below a record of its own subtree (itself included)
      makes a cycle. */
  lemma RelinkBelowItselfCycles(links: seq<Option<nat>>, k: nat, p: nat)
    requires Acyclic(links) && k < |links| && p < |links| && Descends(links, p, k)
    ensures !Acyclic(links[k := Some(p)])
  {
    var relinked := links[k := Some(p)];
    if LinksInRange(relinked) {
      LoopHasNoDepth(links, k, p, k, |relinked|);
    }
  }
}

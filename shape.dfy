/** The shape of an AVL tree: which arena slot sits where.

    A `Tree` records only the arena indices of the nodes (keys and balance
    fields live in the arena's own sequences).  A `Ctx` is a bottom-up
    zipper: the path from a subtree up to the root, together with the
    sibling subtree hanging off every ancestor.  The parent-pointer walk of
    the rebalancing loop moves up exactly one `Ctx` level per step. */
module Shape {

  /** The null pointer of the node arena. */
  const NIL: int := -1

  datatype Tree = Nil | Node(left: Tree, id: nat, right: Tree)

  /** `InL(p, s, up)`: the hole is the left child of node `p`, whose right
      subtree is `s` and whose own position is `up`; `InR` is the mirror. */
  datatype Ctx = Top | InL(pid: nat, sib: Tree, up: Ctx) | InR(pid: nat, sib: Tree, up: Ctx)

  /** The arena index of the root of `t`, NIL for the empty tree. */
  function Id(t: Tree): int {
    if t.Nil? then NIL else t.id
  }

  function Ids(t: Tree): set<int> {
    match t
    case Nil => {}
    case Node(l, i, r) => Ids(l) + {i} + Ids(r)
  }

  function Size(t: Tree): nat {
    match t
    case Nil => 0
    case Node(l, _, r) => Size(l) + 1 + Size(r)
  }

  function Height(t: Tree): nat {
    match t
    case Nil => 0
    case Node(l, _, r) => 1 + Max(Height(l), Height(r))
  }

  function Max(a: nat, b: nat): nat {
    if a < b then b else a
  }

  /** No arena index occurs twice: every node has exactly one position. */
  ghost predicate Distinct(t: Tree) {
    match t
    case Nil => true
    case Node(l, i, r) =>
      Distinct(l) && Distinct(r) && Ids(l) !! Ids(r) && i !in Ids(l) && i !in Ids(r)
  }

  /** The tree obtained by putting `t` into the hole of `c`. */
  function Plug(c: Ctx, t: Tree): Tree
    decreases c
  {
    match c
    case Top => t
    case InL(p, s, up) => Plug(up, Node(t, p, s))
    case InR(p, s, up) => Plug(up, Node(s, p, t))
  }

  /** The parent of the hole (NIL when the hole is the root). */
  function ParentId(c: Ctx): int {
    if c.Top? then NIL else c.pid
  }

  function Depth(c: Ctx): nat {
    match c
    case Top => 0
    case InL(_, _, up) => 1 + Depth(up)
    case InR(_, _, up) => 1 + Depth(up)
  }

  /** Every index of the context: the ancestors and their sibling subtrees. */
  function CtxIds(c: Ctx): set<int> {
    match c
    case Top => {}
    case InL(p, s, up) => {p} + Ids(s) + CtxIds(up)
    case InR(p, s, up) => {p} + Ids(s) + CtxIds(up)
  }

  ghost predicate DistinctCtx(c: Ctx) {
    match c
    case Top => true
    case InL(p, s, up) =>
      Distinct(s) && p !in Ids(s) && DistinctCtx(up) && ({p} + Ids(s)) !! CtxIds(up)
    case InR(p, s, up) =>
      Distinct(s) && p !in Ids(s) && DistinctCtx(up) && ({p} + Ids(s)) !! CtxIds(up)
  }

  lemma {:induction false} PlugIds(c: Ctx, t: Tree)
    ensures Ids(Plug(c, t)) == CtxIds(c) + Ids(t)
    decreases c
  {
    match c
    case Top =>
    case InL(p, s, up) => PlugIds(up, Node(t, p, s));
    case InR(p, s, up) => PlugIds(up, Node(s, p, t));
  }

  /** A plugged tree is duplicate-free exactly when its two parts are and
      they share no index. */
  lemma {:induction false} DistinctPlug(c: Ctx, t: Tree)
    ensures Distinct(Plug(c, t)) <==> Distinct(t) && DistinctCtx(c) && Ids(t) !! CtxIds(c)
    decreases c
  {
    match c
    case Top =>
    case InL(p, s, up) =>
      DistinctPlug(up, Node(t, p, s));
    case InR(p, s, up) =>
      DistinctPlug(up, Node(s, p, t));
  }

  /** The zipper that leads from the root of `t` to the node with index `n`;
      `acc` is the context of `t` itself. */
  ghost function FocusFrom(t: Tree, n: int, acc: Ctx): (f: (Ctx, Tree))
    requires n in Ids(t)
    ensures Plug(f.0, f.1) == Plug(acc, t)
    ensures f.1.Node? && f.1.id == n
    decreases t
  {
    match t
    case Node(l, i, r) =>
      if i == n then (acc, t)
      else if n in Ids(l) then FocusFrom(l, n, InL(i, r, acc))
      else FocusFrom(r, n, InR(i, l, acc))
  }

  ghost function Focus(t: Tree, n: int): (f: (Ctx, Tree))
    requires n in Ids(t)
    ensures Plug(f.0, f.1) == t
    ensures f.1.Node? && f.1.id == n
  {
    FocusFrom(t, n, Top)
  }

  /** The hole's parent occurs nowhere else in a tree of distinct ids. */
  lemma {:induction false} DistinctOneUp(c: Ctx, sub: Tree)
    requires Distinct(Plug(c, sub)) && !c.Top?
    ensures c.pid !in Ids(sub) && c.pid !in Ids(c.sib) && c.pid !in CtxIds(c.up)
  {
    DistinctPlug(c, sub);
    assert c.pid in CtxIds(c);
  }

  /** In a duplicate-free tree, the hole's parent and grandparent are two
      different nodes that occur nowhere else, and the same holds for the
      root of the hole's subtree. */
  lemma {:induction false} DistinctTwoUp(c: Ctx, sub: Tree)
    requires Distinct(Plug(c, sub)) && !c.Top? && !c.up.Top?
    ensures var xs := {c.pid, c.up.pid};
            c.pid != c.up.pid && Ids(sub) !! xs && Ids(c.sib) !! xs && Ids(c.up.sib) !! xs &&
            CtxIds(c.up.up) !! xs
    ensures sub.Node? ==>
            var xs := {c.pid, c.up.pid, sub.id};
            Ids(sub.left) !! xs && Ids(sub.right) !! xs && Ids(c.sib) !! xs && Ids(c.up.sib) !! xs &&
            CtxIds(c.up.up) !! xs
  {
    DistinctPlug(c, sub);
    assert CtxIds(c) == {c.pid} + Ids(c.sib) + ({c.up.pid} + Ids(c.up.sib) + CtxIds(c.up.up));
    if sub.Node? {
      assert Ids(sub) == Ids(sub.left) + {sub.id} + Ids(sub.right);
    }
  }

  /** The context `inner` stacked on top of `outer`: the hole of `outer`
      is filled with `inner`'s path. */
  function Above(inner: Ctx, outer: Ctx): Ctx
    decreases inner
  {
    match inner
    case Top => outer
    case InL(p, s, up) => InL(p, s, Above(up, outer))
    case InR(p, s, up) => InR(p, s, Above(up, outer))
  }

  lemma {:induction false} PlugAbove(inner: Ctx, outer: Ctx, t: Tree)
    ensures Plug(Above(inner, outer), t) == Plug(outer, Plug(inner, t))
    decreases inner
  {
    match inner
    case Top =>
    case InL(p, s, up) => PlugAbove(up, outer, Node(t, p, s));
    case InR(p, s, up) => PlugAbove(up, outer, Node(s, p, t));
  }

  // ---------------------------------------------------------------------
  // Rotations on shapes
  // ---------------------------------------------------------------------

  /** Left rotation around the root `c` of `t`, whose right child is `b`:
      `Node(C, c, Node(A, b, B))` becomes `Node(Node(C, c, A), b, B)`.
      Without a right child nothing changes. */
  function RotL(t: Tree): Tree {
    match t
    case Node(cl, c, Node(a, b, br)) => Node(Node(cl, c, a), b, br)
    case _ => t
  }

  /** Right rotation around the root `c` of `t`, whose left child is `b`:
      `Node(Node(A, b, B), c, C)` becomes `Node(A, b, Node(B, c, C))`. */
  function RotR(t: Tree): Tree {
    match t
    case Node(Node(a, b, bl), c, cr) => Node(a, b, Node(bl, c, cr))
    case _ => t
  }

  /** The shape after a left rotation around the node with index `c`. */
  function RotLeftAt(t: Tree, c: int): Tree {
    match t
    case Nil => Nil
    case Node(l, i, r) => if i == c then RotL(t) else Node(RotLeftAt(l, c), i, RotLeftAt(r, c))
  }

  /** The shape after a right rotation around the node with index `c`. */
  function RotRightAt(t: Tree, c: int): Tree {
    match t
    case Nil => Nil
    case Node(l, i, r) => if i == c then RotR(t) else Node(RotRightAt(l, c), i, RotRightAt(r, c))
  }

  lemma {:induction false} RotLeftAtAbsent(t: Tree, c: int)
    requires c !in Ids(t)
    ensures RotLeftAt(t, c) == t
    decreases t
  {
    if t.Node? {
      RotLeftAtAbsent(t.left, c);
      RotLeftAtAbsent(t.right, c);
    }
  }

  lemma {:induction false} RotRightAtAbsent(t: Tree, c: int)
    requires c !in Ids(t)
    ensures RotRightAt(t, c) == t
    decreases t
  {
    if t.Node? {
      RotRightAtAbsent(t.left, c);
      RotRightAtAbsent(t.right, c);
    }
  }

  /** Rotations keep the set of nodes. */
  lemma {:induction false} RotAtIds(t: Tree, x: int)
    ensures Ids(RotLeftAt(t, x)) == Ids(t) && Ids(RotRightAt(t, x)) == Ids(t)
    decreases t
  {
    match t
    case Nil =>
    case Node(l, i, r) =>
      RotLIds(t);
      RotRIds(t);
      RotAtIds(l, x);
      RotAtIds(r, x);
  }

  /** Rotating at the index that sits in the hole rotates the plugged subtree. */
  lemma {:induction false} RotLeftAtPlug(c: Ctx, sub: Tree)
    requires sub.Node? && sub.id !in CtxIds(c)
    ensures RotLeftAt(Plug(c, sub), sub.id) == Plug(c, RotL(sub))
  {
    RotLeftAtPlugStep(c, sub, RotL(sub), sub.id);
  }

  lemma {:induction false} RotLeftAtPlugStep(c: Ctx, t: Tree, t': Tree, x: int)
    requires x !in CtxIds(c)
    requires RotLeftAt(t, x) == t'
    ensures RotLeftAt(Plug(c, t), x) == Plug(c, t')
    decreases c
  {
    match c
    case Top =>
    case InL(p, s, up) =>
      RotLeftAtAbsent(s, x);
      RotLeftAtPlugStep(up, Node(t, p, s), Node(t', p, s), x);
    case InR(p, s, up) =>
      RotLeftAtAbsent(s, x);
      RotLeftAtPlugStep(up, Node(s, p, t), Node(s, p, t'), x);
  }

  lemma {:induction false} RotRightAtPlugStep(c: Ctx, t: Tree, t': Tree, x: int)
    requires x !in CtxIds(c)
    requires RotRightAt(t, x) == t'
    ensures RotRightAt(Plug(c, t), x) == Plug(c, t')
    decreases c
  {
    match c
    case Top =>
    case InL(p, s, up) =>
      RotRightAtAbsent(s, x);
      RotRightAtPlugStep(up, Node(t, p, s), Node(t', p, s), x);
    case InR(p, s, up) =>
      RotRightAtAbsent(s, x);
      RotRightAtPlugStep(up, Node(s, p, t), Node(s, p, t'), x);
  }

  lemma {:induction false} RotRightAtPlug(c: Ctx, sub: Tree)
    requires sub.Node? && sub.id !in CtxIds(c)
    ensures RotRightAt(Plug(c, sub), sub.id) == Plug(c, RotR(sub))
  {
    RotRightAtPlugStep(c, sub, RotR(sub), sub.id);
  }

  lemma {:induction false} RotLIds(t: Tree)
    ensures Ids(RotL(t)) == Ids(t)
    ensures Distinct(t) ==> Distinct(RotL(t))
  {
    match t
    case Node(cl, c, Node(a, b, br)) =>
      assert Ids(t) == Ids(cl) + {c} + (Ids(a) + {b} + Ids(br));
      assert Ids(RotL(t)) == (Ids(cl) + {c} + Ids(a)) + {b} + Ids(br);
      if Distinct(t) {
        assert Distinct(Node(a, b, br));
        assert Distinct(Node(cl, c, a));
      }
    case _ =>
  }

  lemma {:induction false} RotRIds(t: Tree)
    ensures Ids(RotR(t)) == Ids(t)
    ensures Distinct(t) ==> Distinct(RotR(t))
  {
    match t
    case Node(Node(a, b, bl), c, cr) =>
      assert Ids(t) == (Ids(a) + {b} + Ids(bl)) + {c} + Ids(cr);
      assert Ids(RotR(t)) == Ids(a) + {b} + (Ids(bl) + {c} + Ids(cr));
      if Distinct(t) {
        assert Distinct(Node(a, b, bl));
        assert Distinct(Node(bl, c, cr));
      }
    case _ =>
  }

  /** The outcome of one rebalancing walk: no rotation, one of the two
      single rotations, or one of the two double rotations, named after the
      shape (LL, RR, RL, LR) that triggered it. */
  datatype Fix =
    | NoRotation
    | LL(gp: int)
    | RR(gp: int)
    | RL(p: int, gp: int)
    | LR(p: int, gp: int)

  function ApplyFix(t: Tree, f: Fix): Tree {
    match f
    case NoRotation => t
    case LL(gp) => RotRightAt(t, gp)
    case RR(gp) => RotLeftAt(t, gp)
    case RL(p, gp) => RotLeftAt(RotRightAt(t, p), gp)
    case LR(p, gp) => RotRightAt(RotLeftAt(t, p), gp)
  }

  /** The four rotation cases of the rebalancing walk, on shapes: the
      hole's subtree, its parent `p` and grandparent `gp` are rearranged
      and the rest of the tree stays where it was. */
  lemma {:induction false} ShapeLL(sub: Tree, p: nat, a: Tree, gp: nat, b: Tree, up: Ctx)
    requires gp !in CtxIds(up)
    ensures ApplyFix(Plug(InL(p, a, InL(gp, b, up)), sub), LL(gp)) == Plug(up, Node(sub, p, Node(a, gp, b)))
  {
    RotRightAtPlug(up, Node(Node(sub, p, a), gp, b));
  }

  lemma {:induction false} ShapeRR(sub: Tree, p: nat, a: Tree, gp: nat, b: Tree, up: Ctx)
    requires gp !in CtxIds(up)
    ensures ApplyFix(Plug(InR(p, a, InR(gp, b, up)), sub), RR(gp)) == Plug(up, Node(Node(b, gp, a), p, sub))
  {
    RotLeftAtPlug(up, Node(b, gp, Node(a, p, sub)));
  }

  lemma {:induction false} ShapeRL(lb: Tree, n: nat, rb: Tree, p: nat, d: Tree, gp: nat, a: Tree, up: Ctx)
    requires p !in CtxIds(up) && p != gp && p !in Ids(a) && gp !in CtxIds(up)
    ensures ApplyFix(Plug(InL(p, d, InR(gp, a, up)), Node(lb, n, rb)), RL(p, gp)) ==
            Plug(up, Node(Node(a, gp, lb), n, Node(rb, p, d)))
  {
    RotRightAtPlug(InR(gp, a, up), Node(Node(lb, n, rb), p, d));
    RotLeftAtPlug(up, Node(a, gp, Node(lb, n, Node(rb, p, d))));
  }

  lemma {:induction false} ShapeLR(lb: Tree, n: nat, rb: Tree, p: nat, a: Tree, gp: nat, d: Tree, up: Ctx)
    requires p !in CtxIds(up) && p != gp && p !in Ids(d) && gp !in CtxIds(up)
    ensures ApplyFix(Plug(InR(p, a, InL(gp, d, up)), Node(lb, n, rb)), LR(p, gp)) ==
            Plug(up, Node(Node(a, p, lb), n, Node(rb, gp, d)))
  {
    RotLeftAtPlug(InL(gp, d, up), Node(a, p, Node(lb, n, rb)));
    RotRightAtPlug(up, Node(Node(Node(a, p, lb), n, rb), gp, d));
  }
}

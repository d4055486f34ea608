/** The balance field of a node: height(left) - height(right), kept in
    {LEFT_HEAVY, BALANCED, RIGHT_HEAVY}.  This module states when the
    balance fields of a tree are right (the AVL property) and proves what
    each step of the rebalancing walk after an insertion does to them. */
module Balance {
  import opened Shape

  const LEFT_HEAVY: int := 1
  const BALANCED: int := 0
  const RIGHT_HEAVY: int := -1

  /** The balance field of arena slot `i` (0 for a slot outside the arena). */
  function BalAt(bal: seq<int>, i: int): int {
    if 0 <= i < |bal| then bal[i] else 0
  }

  /** The AVL property: every node's balance field is the height difference
      of its subtrees, and that difference is at most one either way. */
  ghost predicate BalOk(bal: seq<int>, t: Tree) {
    match t
    case Nil => true
    case Node(l, i, r) =>
      BalAt(bal, i) == Height(l) - Height(r) && RIGHT_HEAVY <= BalAt(bal, i) <= LEFT_HEAVY &&
      BalOk(bal, l) && BalOk(bal, r)
  }

  /** The same for a context whose hole holds a subtree of height `h`. */
  ghost predicate CtxBalOk(bal: seq<int>, c: Ctx, h: nat) {
    match c
    case Top => true
    case InL(p, s, up) =>
      BalAt(bal, p) == h - Height(s) && RIGHT_HEAVY <= BalAt(bal, p) <= LEFT_HEAVY &&
      BalOk(bal, s) && CtxBalOk(bal, up, 1 + Max(h, Height(s)))
    case InR(p, s, up) =>
      BalAt(bal, p) == Height(s) - h && RIGHT_HEAVY <= BalAt(bal, p) <= LEFT_HEAVY &&
      BalOk(bal, s) && CtxBalOk(bal, up, 1 + Max(h, Height(s)))
  }

  /** The hole's parent can take a height increase of the hole: it is not
      already heavy on the hole's side. */
  ghost predicate Room(bal: seq<int>, c: Ctx) {
    (c.InL? ==> BalAt(bal, c.pid) != LEFT_HEAVY) && (c.InR? ==> BalAt(bal, c.pid) != RIGHT_HEAVY)
  }

  /** The situation at the head of the rebalancing walk: the subtree `sub`
      in the hole is a correct AVL tree that has just grown by one level,
      and the balance fields of the context are still those for the old
      height. */
  ghost predicate Grown(bal: seq<int>, c: Ctx, sub: Tree) {
    sub.Node? && BalOk(bal, sub) && CtxBalOk(bal, c, Height(sub) - 1) && Room(bal, c)
  }

  lemma {:induction false} BalPlug(bal: seq<int>, c: Ctx, t: Tree)
    ensures BalOk(bal, Plug(c, t)) <==> BalOk(bal, t) && CtxBalOk(bal, c, Height(t))
    decreases c
  {
    match c
    case Top =>
    case InL(p, s, up) =>
      BalPlug(bal, up, Node(t, p, s));
      BalUpL(bal, p, s, up, t);
    case InR(p, s, up) =>
      BalPlug(bal, up, Node(s, p, t));
      BalUpR(bal, p, s, up, t);
  }

  /** One level of `BalPlug`: the hole's parent with the hole filled, in
      the rest of the context. */
  lemma {:induction false} BalUpL(bal: seq<int>, p: nat, s: Tree, up: Ctx, t: Tree)
    ensures BalOk(bal, t) && CtxBalOk(bal, InL(p, s, up), Height(t)) <==>
            BalOk(bal, Node(t, p, s)) && CtxBalOk(bal, up, Height(Node(t, p, s)))
  {
  }

  lemma {:induction false} BalUpR(bal: seq<int>, p: nat, s: Tree, up: Ctx, t: Tree)
    ensures BalOk(bal, t) && CtxBalOk(bal, InR(p, s, up), Height(t)) <==>
            BalOk(bal, Node(s, p, t)) && CtxBalOk(bal, up, Height(Node(s, p, t)))
  {
  }


  /** Balance correctness depends only on the balance fields of the tree's
      own nodes. */
  lemma {:induction false} BalFrame(bal: seq<int>, bal': seq<int>, t: Tree)
    requires forall j :: j in Ids(t) ==> BalAt(bal', j) == BalAt(bal, j)
    ensures BalOk(bal', t) <==> BalOk(bal, t)
    decreases t
  {
    match t
    case Nil =>
    case Node(l, i, r) =>
      BalFrame(bal, bal', l);
      BalFrame(bal, bal', r);
  }

  lemma {:induction false} CtxBalFrame(bal: seq<int>, bal': seq<int>, c: Ctx, h: nat)
    requires forall j :: j in CtxIds(c) ==> BalAt(bal', j) == BalAt(bal, j)
    ensures CtxBalOk(bal', c, h) <==> CtxBalOk(bal, c, h)
    decreases c
  {
    match c
    case Top =>
    case InL(p, s, up) =>
      BalFrame(bal, bal', s);
      CtxBalFrame(bal, bal', up, 1 + Max(h, Height(s)));
    case InR(p, s, up) =>
      BalFrame(bal, bal', s);
      CtxBalFrame(bal, bal', up, 1 + Max(h, Height(s)));
  }

  /** A freshly attached leaf starts the walk: an AVL tree with an empty
      slot filled by a single node of balance BALANCED has grown there. */
  lemma {:induction false} GrownLeaf(bal: seq<int>, c: Ctx, n: nat)
    requires BalOk(bal, Plug(c, Nil)) && BalAt(bal, n) == BALANCED
    ensures Grown(bal, c, Node(Nil, n, Nil))
  {
    BalPlug(bal, c, Nil);
  }

  // ---------------------------------------------------------------------
  // One step of the walk, the hole being a left child
  // ---------------------------------------------------------------------

  /** After `p->balance++` for a left child that grew: the walk may stop
      when the parent became balanced or is the root, and otherwise moves
      up when the grandparent has room. */
  lemma {:induction false} StepLeft(bal: seq<int>, p: nat, s: Tree, up: Ctx, sub: Tree)
    requires Grown(bal, InL(p, s, up), sub) && p < |bal|
    requires p !in Ids(sub) && p !in Ids(s) && p !in CtxIds(up)
    ensures var bal1 := bal[p := bal[p] + 1];
            (BalAt(bal1, p) == BALANCED || up.Top? ==> BalOk(bal1, Plug(InL(p, s, up), sub))) &&
            (BalAt(bal1, p) != BALANCED && Room(bal1, up) ==> Grown(bal1, up, Node(sub, p, s)))
  {
    var hu: nat := 1 + Max(Height(sub) - 1, Height(s));
    assert CtxBalOk(bal, up, hu) && BalOk(bal, s) && BalOk(bal, sub) && Height(sub) >= 1 &&
           BalAt(bal, p) == (Height(sub) - 1) - Height(s) && RIGHT_HEAVY <= BalAt(bal, p) < LEFT_HEAVY;
    StepLeftCore(bal, p, s, up, sub, hu);
  }

  lemma {:induction false} StepLeftCore(bal: seq<int>, p: nat, s: Tree, up: Ctx, sub: Tree, hu: nat)
    requires sub.Node? && p < |bal| && p !in Ids(sub) && p !in Ids(s) && p !in CtxIds(up)
    requires CtxBalOk(bal, up, hu) && BalOk(bal, s) && BalOk(bal, sub) && Height(sub) >= 1
    requires BalAt(bal, p) == (Height(sub) - 1) - Height(s) && RIGHT_HEAVY <= BalAt(bal, p) < LEFT_HEAVY
    requires hu == 1 + Max(Height(sub) - 1, Height(s))
    ensures var bal1 := bal[p := bal[p] + 1];
            (BalAt(bal1, p) == BALANCED || up.Top? ==> BalOk(bal1, Plug(InL(p, s, up), sub))) &&
            (BalAt(bal1, p) != BALANCED && Room(bal1, up) ==> Grown(bal1, up, Node(sub, p, s)))
  {
    var bal1 := bal[p := bal[p] + 1];
    ParentUpdated(bal, bal[p] + 1, p, s, up, sub, hu);
    GrowArith(BalAt(bal, p), Height(sub), Height(s), hu);
    NodeOk(bal1, sub, p, s, Height(sub), Height(s));
    StepCore(bal1, up, Node(sub, p, s), hu);
  }


  lemma {:induction false} StepRight(bal: seq<int>, p: nat, s: Tree, up: Ctx, sub: Tree)
    requires Grown(bal, InR(p, s, up), sub) && p < |bal|
    requires p !in Ids(sub) && p !in Ids(s) && p !in CtxIds(up)
    ensures var bal1 := bal[p := bal[p] - 1];
            (BalAt(bal1, p) == BALANCED || up.Top? ==> BalOk(bal1, Plug(InR(p, s, up), sub))) &&
            (BalAt(bal1, p) != BALANCED && Room(bal1, up) ==> Grown(bal1, up, Node(s, p, sub)))
  {
    var hu: nat := 1 + Max(Height(sub) - 1, Height(s));
    assert CtxBalOk(bal, up, hu) && BalOk(bal, s) && BalOk(bal, sub) && Height(sub) >= 1 &&
           BalAt(bal, p) == Height(s) - (Height(sub) - 1) && RIGHT_HEAVY < BalAt(bal, p) <= LEFT_HEAVY;
    StepRightCore(bal, p, s, up, sub, hu);
  }

  lemma {:induction false} StepRightCore(bal: seq<int>, p: nat, s: Tree, up: Ctx, sub: Tree, hu: nat)
    requires sub.Node? && p < |bal| && p !in Ids(sub) && p !in Ids(s) && p !in CtxIds(up)
    requires CtxBalOk(bal, up, hu) && BalOk(bal, s) && BalOk(bal, sub) && Height(sub) >= 1
    requires BalAt(bal, p) == Height(s) - (Height(sub) - 1) && RIGHT_HEAVY < BalAt(bal, p) <= LEFT_HEAVY
    requires hu == 1 + Max(Height(sub) - 1, Height(s))
    ensures var bal1 := bal[p := bal[p] - 1];
            (BalAt(bal1, p) == BALANCED || up.Top? ==> BalOk(bal1, Plug(InR(p, s, up), sub))) &&
            (BalAt(bal1, p) != BALANCED && Room(bal1, up) ==> Grown(bal1, up, Node(s, p, sub)))
  {
    var bal1 := bal[p := bal[p] - 1];
    ParentUpdated(bal, bal[p] - 1, p, s, up, sub, hu);
    GrowArith(-BalAt(bal, p), Height(sub), Height(s), hu);
    NodeOk(bal1, s, p, sub, Height(s), Height(sub));
    StepCore(bal1, up, Node(s, p, sub), hu);
  }

  /** The heights of one step of the walk: the hole grew from `hg - 1` to
      `hg` beside a sibling of height `ho`, and `d` was the old difference
      (hole side minus sibling side, at most zero since the parent had
      room).  The new difference `d + 1` is 0 exactly when the parent keeps
      its height `hu`, and 1 exactly when the parent grew too. */
  lemma {:induction false} GrowArith(d: int, hg: nat, ho: nat, hu: nat)
    requires hg >= 1 && d == (hg - 1) - ho && RIGHT_HEAVY <= d <= BALANCED
    requires hu == 1 + Max(hg - 1, ho)
    ensures d + 1 == hg - ho && BALANCED <= d + 1 <= LEFT_HEAVY && Max(hg, ho) == Max(ho, hg)
    ensures d + 1 == BALANCED ==> 1 + Max(hg, ho) == hu
    ensures d + 1 != BALANCED ==> 1 + Max(hg, ho) == hu + 1
  {
  }


  /** The common part of both steps: `t` is the parent's subtree with its
      balance field already updated, and `hu` the height it had before. */
  lemma {:induction false} StepCore(bal1: seq<int>, up: Ctx, t: Tree, hu: nat)
    requires t.Node? && BalOk(bal1, t) && CtxBalOk(bal1, up, hu)
    requires Height(t) == hu || Height(t) == hu + 1
    ensures Height(t) == hu || up.Top? ==> BalOk(bal1, Plug(up, t))
    ensures Height(t) == hu + 1 && Room(bal1, up) ==> Grown(bal1, up, t)
  {
    if Height(t) == hu {
      BalPlug(bal1, up, t);
    }
  }


  /** A node over subtrees of known heights `hl`, `hr` whose balance field
      is their difference is balanced and one higher than the higher one. */
  lemma {:induction false} NodeOk(bal: seq<int>, l: Tree, i: nat, r: Tree, hl: nat, hr: nat)
    requires Height(l) == hl && Height(r) == hr
    requires BalAt(bal, i) == hl - hr && RIGHT_HEAVY <= BalAt(bal, i) <= LEFT_HEAVY
    requires BalOk(bal, l) && BalOk(bal, r)
    ensures BalOk(bal, Node(l, i, r)) && Height(Node(l, i, r)) == 1 + Max(hl, hr)
  {
  }

  /** Changing only the parent's balance keeps the rest of the picture. */
  lemma {:induction false} ParentUpdated(bal: seq<int>, v: int, p: nat, s: Tree, up: Ctx, sub: Tree, h: nat)
    requires p < |bal|
    requires p !in Ids(sub) && p !in Ids(s) && p !in CtxIds(up)
    requires BalOk(bal, sub) && BalOk(bal, s) && CtxBalOk(bal, up, h)
    ensures var bal1 := bal[p := v];
            BalOk(bal1, sub) && BalOk(bal1, s) && CtxBalOk(bal1, up, h)
  {
    var bal1 := bal[p := v];
    assert forall j :: j != p ==> BalAt(bal1, j) == BalAt(bal, j);
    BalFrame(bal, bal1, sub);
    BalFrame(bal, bal1, s);
    CtxBalFrame(bal, bal1, up, h);
  }

  // ---------------------------------------------------------------------
  // The four rotation cases that end the walk
  // ---------------------------------------------------------------------

  /** Balances of the two nodes that become the left and the right child
      of `node` in a double rotation, as set by the three-way switch on
      `node`'s own balance. */
  function DoubleLeft(nb: int): int {
    if nb == RIGHT_HEAVY then LEFT_HEAVY else BALANCED
  }

  function DoubleRight(nb: int): int {
    if nb == LEFT_HEAVY then RIGHT_HEAVY else BALANCED
  }

  /** Balances that agree with `bal` outside the set `xs` keep the balance
      correctness of every subtree and context that avoids `xs`. */
  lemma {:induction false} FrameAway(bal: seq<int>, bal2: seq<int>, xs: set<int>, t: Tree)
    requires forall j {:trigger BalAt(bal2, j)} :: j !in xs ==> BalAt(bal2, j) == BalAt(bal, j)
    requires Ids(t) !! xs
    ensures BalOk(bal2, t) <==> BalOk(bal, t)
  {
    BalFrame(bal, bal2, t);
  }

  lemma {:induction false} CtxFrameAway(bal: seq<int>, bal2: seq<int>, xs: set<int>, c: Ctx, h: nat)
    requires forall j {:trigger BalAt(bal2, j)} :: j !in xs ==> BalAt(bal2, j) == BalAt(bal, j)
    requires CtxIds(c) !! xs
    ensures CtxBalOk(bal2, c, h) <==> CtxBalOk(bal, c, h)
  {
    CtxBalFrame(bal, bal2, c, h);
  }

  /** What a grown hole whose parent did not become balanced says about
      the parent: it was balanced, so its other subtree is one lower than
      the hole's new height, and its own context is right for that height. */
  lemma {:induction false} GrownUnbalanced(bal: seq<int>, c: Ctx, sub: Tree)
    requires Grown(bal, c, sub) && !c.Top?
    requires BalAt(bal, c.pid) + (if c.InL? then 1 else -1) != BALANCED
    ensures BalAt(bal, c.pid) == BALANCED && Height(c.sib) == Height(sub) - 1
    ensures BalOk(bal, sub) && BalOk(bal, c.sib) && CtxBalOk(bal, c.up, Height(sub))
  {
  }

  /** A context whose hole's parent is heavy on the hole's side, with a
      hole of height `h`: the parent's other subtree has height `h - 1`. */
  lemma {:induction false} CtxHeavy(bal: seq<int>, c: Ctx, h: nat)
    requires CtxBalOk(bal, c, h) && !c.Top?
    requires BalAt(bal, c.pid) == if c.InL? then LEFT_HEAVY else RIGHT_HEAVY
    ensures Height(c.sib) == h - 1 && BalOk(bal, c.sib) && CtxBalOk(bal, c.up, h + 1)
  {
  }

  /** The LL case: the hole is the left child of `p`, itself the left child
      of a LEFT_HEAVY `gp`; after the right rotation around `gp` with both
      balances set to BALANCED the whole tree is an AVL tree again. */
  lemma {:induction false} RotateLL(bal: seq<int>, bal2: seq<int>, sub: Tree, p: nat, a: Tree, gp: nat, b: Tree, up: Ctx)
    requires Grown(bal, InL(p, a, InL(gp, b, up)), sub)
    requires Distinct(Plug(InL(p, a, InL(gp, b, up)), sub))
    requires BalAt(bal, p) + 1 != BALANCED && BalAt(bal, gp) == LEFT_HEAVY
    requires BalAt(bal2, p) == BALANCED && BalAt(bal2, gp) == BALANCED
    requires forall j {:trigger BalAt(bal2, j)} :: j !in {p, gp} ==> BalAt(bal2, j) == BalAt(bal, j)
    ensures BalOk(bal2, Plug(up, Node(sub, p, Node(a, gp, b))))
    ensures BalOk(bal2, ApplyFix(Plug(InL(p, a, InL(gp, b, up)), sub), LL(gp)))
  {
    var h := Height(sub);
    var xs := {p, gp};
    assert Height(a) == h - 1 && Height(b) == h - 1 &&
           BalOk(bal, sub) && BalOk(bal, a) && BalOk(bal, b) && CtxBalOk(bal, up, h + 1) by {
      GrownUnbalanced(bal, InL(p, a, InL(gp, b, up)), sub);
      CtxHeavy(bal, InL(gp, b, up), h);
    }
    assert Ids(sub) !! xs && Ids(a) !! xs && Ids(b) !! xs && CtxIds(up) !! xs && gp !in CtxIds(up) by {
      DistinctTwoUp(InL(p, a, InL(gp, b, up)), sub);
    }
    SingleLL(bal, bal2, sub, p, a, gp, b, h, up);
    ShapeLL(sub, p, a, gp, b, up);
  }

  /** The RR case, the mirror image of LL. */
  lemma {:induction false} RotateRR(bal: seq<int>, bal2: seq<int>, sub: Tree, p: nat, a: Tree, gp: nat, b: Tree, up: Ctx)
    requires Grown(bal, InR(p, a, InR(gp, b, up)), sub)
    requires Distinct(Plug(InR(p, a, InR(gp, b, up)), sub))
    requires BalAt(bal, p) - 1 != BALANCED && BalAt(bal, gp) == RIGHT_HEAVY
    requires BalAt(bal2, p) == BALANCED && BalAt(bal2, gp) == BALANCED
    requires forall j {:trigger BalAt(bal2, j)} :: j !in {p, gp} ==> BalAt(bal2, j) == BalAt(bal, j)
    ensures BalOk(bal2, Plug(up, Node(Node(b, gp, a), p, sub)))
    ensures BalOk(bal2, ApplyFix(Plug(InR(p, a, InR(gp, b, up)), sub), RR(gp)))
  {
    var h := Height(sub);
    var xs := {p, gp};
    assert Height(a) == h - 1 && Height(b) == h - 1 &&
           BalOk(bal, sub) && BalOk(bal, a) && BalOk(bal, b) && CtxBalOk(bal, up, h + 1) by {
      GrownUnbalanced(bal, InR(p, a, InR(gp, b, up)), sub);
      CtxHeavy(bal, InR(gp, b, up), h);
    }
    assert Ids(sub) !! xs && Ids(a) !! xs && Ids(b) !! xs && CtxIds(up) !! xs && gp !in CtxIds(up) by {
      DistinctTwoUp(InR(p, a, InR(gp, b, up)), sub);
    }
    SingleRR(bal, bal2, sub, p, a, gp, b, h, up);
    ShapeRR(sub, p, a, gp, b, up);
  }

  /** The LL case once its parts are known: `sub` of height `h` and the
      two subtrees `a`, `b` of height `h - 1`, none of them containing `p`
      or `gp`, which are now both BALANCED. */
  lemma {:induction false} SingleLL(bal: seq<int>, bal2: seq<int>, sub: Tree, p: nat, a: Tree, gp: nat, b: Tree, h: nat, up: Ctx)
    requires Height(sub) == h && Height(a) == h - 1 && Height(b) == h - 1
    requires BalOk(bal, sub) && BalOk(bal, a) && BalOk(bal, b) && CtxBalOk(bal, up, h + 1)
    requires Ids(sub) !! {p, gp} && Ids(a) !! {p, gp} && Ids(b) !! {p, gp} && CtxIds(up) !! {p, gp}
    requires BalAt(bal2, p) == BALANCED && BalAt(bal2, gp) == BALANCED
    requires forall j {:trigger BalAt(bal2, j)} :: j !in {p, gp} ==> BalAt(bal2, j) == BalAt(bal, j)
    ensures BalOk(bal2, Plug(up, Node(sub, p, Node(a, gp, b))))
  {
    FrameFour(bal, bal2, {p, gp}, sub, a, b, Nil, up, h + 1);
    NodeOk(bal2, a, gp, b, h - 1, h - 1);
    TopPlug(bal2, sub, p, Node(a, gp, b), h, up);
  }



  lemma {:induction false} SingleRR(bal: seq<int>, bal2: seq<int>, sub: Tree, p: nat, a: Tree, gp: nat, b: Tree, h: nat, up: Ctx)
    requires Height(sub) == h && Height(a) == h - 1 && Height(b) == h - 1
    requires BalOk(bal, sub) && BalOk(bal, a) && BalOk(bal, b) && CtxBalOk(bal, up, h + 1)
    requires Ids(sub) !! {p, gp} && Ids(a) !! {p, gp} && Ids(b) !! {p, gp} && CtxIds(up) !! {p, gp}
    requires BalAt(bal2, p) == BALANCED && BalAt(bal2, gp) == BALANCED
    requires forall j {:trigger BalAt(bal2, j)} :: j !in {p, gp} ==> BalAt(bal2, j) == BalAt(bal, j)
    ensures BalOk(bal2, Plug(up, Node(Node(b, gp, a), p, sub)))
  {
    FrameFour(bal, bal2, {p, gp}, sub, a, b, Nil, up, h + 1);
    NodeOk(bal2, b, gp, a, h - 1, h - 1);
    TopPlug(bal2, Node(b, gp, a), p, sub, h, up);
  }

  /** A BALANCED node over two AVL subtrees of height `h`, put in a context
      that expects height `h + 1`, makes an AVL tree. */
  lemma {:induction false} TopPlug(bal: seq<int>, l: Tree, i: nat, r: Tree, h: nat, up: Ctx)
    requires Height(l) == h && Height(r) == h && BalOk(bal, l) && BalOk(bal, r)
    requires BalAt(bal, i) == BALANCED && CtxBalOk(bal, up, h + 1)
    ensures BalOk(bal, Plug(up, Node(l, i, r)))
  {
    NodeOk(bal, l, i, r, h, h);
    BalPlug(bal, up, Node(l, i, r));
  }



  /** The RL case: the hole `n` is the left child of `p`, itself the right
      child of a RIGHT_HEAVY `gp`; `n` becomes the root of the three with
      `gp` on its left and `p` on its right. */
  lemma {:induction false} RotateRL(bal: seq<int>, bal2: seq<int>, lb: Tree, n: nat, rb: Tree,
                                    p: nat, d: Tree, gp: nat, a: Tree, up: Ctx)
    requires Grown(bal, InL(p, d, InR(gp, a, up)), Node(lb, n, rb))
    requires Distinct(Plug(InL(p, d, InR(gp, a, up)), Node(lb, n, rb)))
    requires BalAt(bal, p) + 1 != BALANCED && BalAt(bal, gp) == RIGHT_HEAVY
    requires BalAt(bal2, gp) == DoubleLeft(BalAt(bal, n)) && BalAt(bal2, p) == DoubleRight(BalAt(bal, n))
    requires BalAt(bal2, n) == BALANCED
    requires forall j {:trigger BalAt(bal2, j)} :: j !in {p, gp, n} ==> BalAt(bal2, j) == BalAt(bal, j)
    ensures BalOk(bal2, Plug(up, Node(Node(a, gp, lb), n, Node(rb, p, d))))
    ensures BalOk(bal2, ApplyFix(Plug(InL(p, d, InR(gp, a, up)), Node(lb, n, rb)), RL(p, gp)))
  {
    var h := Height(Node(lb, n, rb));
    assert Height(a) == h - 1 && Height(d) == h - 1 && BalOk(bal, Node(lb, n, rb)) &&
           BalOk(bal, a) && BalOk(bal, d) && CtxBalOk(bal, up, h + 1) &&
           BalOk(bal, lb) && BalOk(bal, rb) && BalAt(bal, n) == Height(lb) - Height(rb) &&
           RIGHT_HEAVY <= BalAt(bal, n) <= LEFT_HEAVY && h == 1 + Max(Height(lb), Height(rb)) by {
      GrownUnbalanced(bal, InL(p, d, InR(gp, a, up)), Node(lb, n, rb));
      CtxHeavy(bal, InR(gp, a, up), h);
    }
    assert Ids(lb) !! {gp, p, n} && Ids(rb) !! {gp, p, n} && Ids(a) !! {gp, p, n} &&
           Ids(d) !! {gp, p, n} && CtxIds(up) !! {gp, p, n} &&
           p !in CtxIds(up) && p != gp && p !in Ids(a) && gp !in CtxIds(up) by {
      DistinctTwoUp(InL(p, d, InR(gp, a, up)), Node(lb, n, rb));
    }
    assert forall j {:trigger BalAt(bal2, j)} :: j !in {gp, p, n} ==> BalAt(bal2, j) == BalAt(bal, j);
    DoubleAway(bal, bal2, lb, n, rb, a, gp, d, p, h, BalAt(bal, n), up);
    ShapeRL(lb, n, rb, p, d, gp, a, up);
  }


  /** The LR case, the mirror image of RL: `p` ends on the left of `n` and
      `gp` on its right. */
  lemma {:induction false} RotateLR(bal: seq<int>, bal2: seq<int>, lb: Tree, n: nat, rb: Tree,
                                    p: nat, a: Tree, gp: nat, d: Tree, up: Ctx)
    requires Grown(bal, InR(p, a, InL(gp, d, up)), Node(lb, n, rb))
    requires Distinct(Plug(InR(p, a, InL(gp, d, up)), Node(lb, n, rb)))
    requires BalAt(bal, p) - 1 != BALANCED && BalAt(bal, gp) == LEFT_HEAVY
    requires BalAt(bal2, p) == DoubleLeft(BalAt(bal, n)) && BalAt(bal2, gp) == DoubleRight(BalAt(bal, n))
    requires BalAt(bal2, n) == BALANCED
    requires forall j {:trigger BalAt(bal2, j)} :: j !in {p, gp, n} ==> BalAt(bal2, j) == BalAt(bal, j)
    ensures BalOk(bal2, Plug(up, Node(Node(a, p, lb), n, Node(rb, gp, d))))
    ensures BalOk(bal2, ApplyFix(Plug(InR(p, a, InL(gp, d, up)), Node(lb, n, rb)), LR(p, gp)))
  {
    var h := Height(Node(lb, n, rb));
    assert Height(a) == h - 1 && Height(d) == h - 1 && BalOk(bal, Node(lb, n, rb)) &&
           BalOk(bal, a) && BalOk(bal, d) && CtxBalOk(bal, up, h + 1) &&
           BalOk(bal, lb) && BalOk(bal, rb) && BalAt(bal, n) == Height(lb) - Height(rb) &&
           RIGHT_HEAVY <= BalAt(bal, n) <= LEFT_HEAVY && h == 1 + Max(Height(lb), Height(rb)) by {
      GrownUnbalanced(bal, InR(p, a, InL(gp, d, up)), Node(lb, n, rb));
      CtxHeavy(bal, InL(gp, d, up), h);
    }
    assert Ids(lb) !! {p, gp, n} && Ids(rb) !! {p, gp, n} && Ids(a) !! {p, gp, n} &&
           Ids(d) !! {p, gp, n} && CtxIds(up) !! {p, gp, n} &&
           p !in CtxIds(up) && p != gp && p !in Ids(d) && gp !in CtxIds(up) by {
      DistinctTwoUp(InR(p, a, InL(gp, d, up)), Node(lb, n, rb));
    }
    DoubleAway(bal, bal2, lb, n, rb, a, p, d, gp, h, BalAt(bal, n), up);
    ShapeLR(lb, n, rb, p, a, gp, d, up);
  }


  // ---------------------------------------------------------------------
  // The walk's steps stated on the hole's context, with the balance
  // updates written in the order the walk performs them
  // ---------------------------------------------------------------------

  /** One step of the walk: `bal1` is `bal` after the parent's balance was
      moved towards the hole's side. */
  lemma {:induction false} StepBalance(bal: seq<int>, bal1: seq<int>, cc: Ctx, s: Tree)
    requires !cc.Top? && 0 <= cc.pid < |bal| && Distinct(Plug(cc, s))
    requires bal1 == bal[cc.pid := if cc.InL? then bal[cc.pid] + 1 else bal[cc.pid] - 1]
    ensures Grown(bal, cc, s) && (BalAt(bal1, cc.pid) == BALANCED || cc.up.Top?) ==> BalOk(bal1, Plug(cc, s))
    ensures Grown(bal, cc, s) && BalAt(bal1, cc.pid) != BALANCED && Room(bal1, cc.up) ==>
              Grown(bal1, cc.up, if cc.InL? then Node(s, cc.pid, cc.sib) else Node(cc.sib, cc.pid, s))
  {
    if Grown(bal, cc, s) {
      DistinctOneUp(cc, s);
      var p, sib, up := cc.pid, cc.sib, cc.up;
      if cc.InL? {
        assert cc == InL(p, sib, up) && bal1 == bal[p := bal[p] + 1];
        StepLeft(bal, p, sib, up, s);
      } else {
        assert cc == InR(p, sib, up) && bal1 == bal[p := bal[p] - 1];
        StepRight(bal, p, sib, up, s);
      }
    }
  }

  lemma {:induction false} CaseLLBalance(bal: seq<int>, bal1: seq<int>, p: int, gp: int, cc: Ctx, s: Tree)
    requires cc.InL? && cc.pid == p && cc.up.InL? && cc.up.pid == gp && p != gp
    requires 0 <= p < |bal| && 0 <= gp < |bal| && Distinct(Plug(cc, s))
    requires bal1 == bal[p := bal[p] + 1] && bal1[p] != BALANCED && bal1[gp] == LEFT_HEAVY
    ensures Grown(bal, cc, s) ==> BalOk(bal1[p := BALANCED][gp := BALANCED], ApplyFix(Plug(cc, s), LL(gp)))
  {
    if Grown(bal, cc, s) {
      var bal2 := bal1[p := BALANCED][gp := BALANCED];
      assert forall j {:trigger BalAt(bal2, j)} :: j !in {p, gp} ==> BalAt(bal2, j) == BalAt(bal, j);
      RotateLL(bal, bal2, s, p, cc.sib, gp, cc.up.sib, cc.up.up);
    }
  }

  lemma {:induction false} CaseRRBalance(bal: seq<int>, bal1: seq<int>, p: int, gp: int, cc: Ctx, s: Tree)
    requires cc.InR? && cc.pid == p && cc.up.InR? && cc.up.pid == gp && p != gp
    requires 0 <= p < |bal| && 0 <= gp < |bal| && Distinct(Plug(cc, s))
    requires bal1 == bal[p := bal[p] - 1] && bal1[p] != BALANCED && bal1[gp] == RIGHT_HEAVY
    ensures Grown(bal, cc, s) ==> BalOk(bal1[p := BALANCED][gp := BALANCED], ApplyFix(Plug(cc, s), RR(gp)))
  {
    if Grown(bal, cc, s) {
      var bal2 := bal1[p := BALANCED][gp := BALANCED];
      assert forall j {:trigger BalAt(bal2, j)} :: j !in {p, gp} ==> BalAt(bal2, j) == BalAt(bal, j);
      RotateRR(bal, bal2, s, p, cc.sib, gp, cc.up.sib, cc.up.up);
    }
  }

  /** The RL case for each of the three balances `n` may have; the grown
      subtree's root can have no other. */
  lemma {:induction false} CaseRLBalance(bal: seq<int>, bal1: seq<int>, n: int, p: int, gp: int, cc: Ctx, s: Tree)
    requires cc.InL? && cc.pid == p && cc.up.InR? && cc.up.pid == gp && s.Node? && s.id == n
    requires 0 <= n < |bal| && 0 <= p < |bal| && 0 <= gp < |bal| && Distinct(Plug(cc, s))
    requires bal1 == bal[p := bal[p] + 1] && bal1[p] != BALANCED && bal1[gp] == RIGHT_HEAVY
    ensures Grown(bal, cc, s) ==> RIGHT_HEAVY <= bal1[n] <= LEFT_HEAVY
    ensures Grown(bal, cc, s) && bal1[n] == LEFT_HEAVY ==>
              BalOk(bal1[p := RIGHT_HEAVY][gp := BALANCED][n := BALANCED], ApplyFix(Plug(cc, s), RL(p, gp)))
    ensures Grown(bal, cc, s) && bal1[n] == BALANCED ==>
              BalOk(bal1[p := BALANCED][gp := BALANCED][n := BALANCED], ApplyFix(Plug(cc, s), RL(p, gp)))
    ensures Grown(bal, cc, s) && bal1[n] == RIGHT_HEAVY ==>
              BalOk(bal1[p := BALANCED][gp := LEFT_HEAVY][n := BALANCED], ApplyFix(Plug(cc, s), RL(p, gp)))
  {
    if Grown(bal, cc, s) {
      DistinctTwoUp(cc, s);
      assert bal1[n] == bal[n];
      var x, y := DoubleLeft(bal[n]), DoubleRight(bal[n]);
      var bal2 := bal1[p := y][gp := x][n := BALANCED];
      assert forall j {:trigger BalAt(bal2, j)} :: j !in {p, gp, n} ==> BalAt(bal2, j) == BalAt(bal, j);
      RotateRL(bal, bal2, s.left, n, s.right, p, cc.sib, gp, cc.up.sib, cc.up.up);
    }
  }

  lemma {:induction false} CaseLRBalance(bal: seq<int>, bal1: seq<int>, n: int, p: int, gp: int, cc: Ctx, s: Tree)
    requires cc.InR? && cc.pid == p && cc.up.InL? && cc.up.pid == gp && s.Node? && s.id == n
    requires 0 <= n < |bal| && 0 <= p < |bal| && 0 <= gp < |bal| && Distinct(Plug(cc, s))
    requires bal1 == bal[p := bal[p] - 1] && bal1[p] != BALANCED && bal1[gp] == LEFT_HEAVY
    ensures Grown(bal, cc, s) ==> RIGHT_HEAVY <= bal1[n] <= LEFT_HEAVY
    ensures Grown(bal, cc, s) && bal1[n] == LEFT_HEAVY ==>
              BalOk(bal1[p := BALANCED][gp := RIGHT_HEAVY][n := BALANCED], ApplyFix(Plug(cc, s), LR(p, gp)))
    ensures Grown(bal, cc, s) && bal1[n] == BALANCED ==>
              BalOk(bal1[p := BALANCED][gp := BALANCED][n := BALANCED], ApplyFix(Plug(cc, s), LR(p, gp)))
    ensures Grown(bal, cc, s) && bal1[n] == RIGHT_HEAVY ==>
              BalOk(bal1[p := LEFT_HEAVY][gp := BALANCED][n := BALANCED], ApplyFix(Plug(cc, s), LR(p, gp)))
  {
    if Grown(bal, cc, s) {
      DistinctTwoUp(cc, s);
      assert bal1[n] == bal[n];
      var x, y := DoubleLeft(bal[n]), DoubleRight(bal[n]);
      var bal2 := bal1[p := x][gp := y][n := BALANCED];
      assert forall j {:trigger BalAt(bal2, j)} :: j !in {p, gp, n} ==> BalAt(bal2, j) == BalAt(bal, j);
      RotateLR(bal, bal2, s.left, n, s.right, p, cc.sib, gp, cc.up.sib, cc.up.up);
    }
  }

  /** The frame half of a double rotation: the balance fields outside
      `{x, y, n}` are untouched, so the four outer subtrees and the context
      keep their balance, and the rebuilt three-node top is balanced. */
  lemma {:induction false} DoubleAway(bal: seq<int>, bal2: seq<int>, lb: Tree, n: nat, rb: Tree,
                                      a: Tree, x: nat, d: Tree, y: nat, h: nat, nb: int, up: Ctx)
    requires nb == Height(lb) - Height(rb) && RIGHT_HEAVY <= nb <= LEFT_HEAVY && h == 1 + Max(Height(lb), Height(rb))
    requires Height(a) == h - 1 && Height(d) == h - 1
    requires BalOk(bal, lb) && BalOk(bal, rb) && BalOk(bal, a) && BalOk(bal, d) && CtxBalOk(bal, up, h + 1)
    requires Ids(lb) !! {x, y, n} && Ids(rb) !! {x, y, n} && Ids(a) !! {x, y, n} &&
             Ids(d) !! {x, y, n} && CtxIds(up) !! {x, y, n}
    requires BalAt(bal2, x) == DoubleLeft(nb) && BalAt(bal2, y) == DoubleRight(nb)
    requires BalAt(bal2, n) == BALANCED
    requires forall j {:trigger BalAt(bal2, j)} :: j !in {x, y, n} ==> BalAt(bal2, j) == BalAt(bal, j)
    ensures BalOk(bal2, Plug(up, Node(Node(a, x, lb), n, Node(rb, y, d))))
  {
    FrameFour(bal, bal2, {x, y, n}, lb, rb, a, d, up, h + 1);
    DoubleNew(bal2, lb, n, rb, a, x, d, y, h, nb, up);
  }

  /** `FrameAway` for four subtrees and a context at once. */
  lemma {:induction false} FrameFour(bal: seq<int>, bal2: seq<int>, xs: set<int>,
                                     t1: Tree, t2: Tree, t3: Tree, t4: Tree, c: Ctx, h: nat)
    requires forall j {:trigger BalAt(bal2, j)} :: j !in xs ==> BalAt(bal2, j) == BalAt(bal, j)
    requires Ids(t1) !! xs && Ids(t2) !! xs && Ids(t3) !! xs && Ids(t4) !! xs && CtxIds(c) !! xs
    requires BalOk(bal, t1) && BalOk(bal, t2) && BalOk(bal, t3) && BalOk(bal, t4) && CtxBalOk(bal, c, h)
    ensures BalOk(bal2, t1) && BalOk(bal2, t2) && BalOk(bal2, t3) && BalOk(bal2, t4) && CtxBalOk(bal2, c, h)
  {
    FrameAway(bal, bal2, xs, t1);
    FrameAway(bal, bal2, xs, t2);
    FrameAway(bal, bal2, xs, t3);
    FrameAway(bal, bal2, xs, t4);
    CtxFrameAway(bal, bal2, xs, c, h);
  }

  /** The arithmetic shared by both double rotations: `x` ends on the left
      of `n` over `a` and `lb`, and `y` on its right over `rb` and `d`. */
  lemma {:induction false} DoubleNew(bal2: seq<int>, lb: Tree, n: nat, rb: Tree,
                                     a: Tree, x: nat, d: Tree, y: nat, h: nat, nb: int, up: Ctx)
    requires nb == Height(lb) - Height(rb) && RIGHT_HEAVY <= nb <= LEFT_HEAVY && h == 1 + Max(Height(lb), Height(rb))
    requires Height(a) == h - 1 && Height(d) == h - 1
    requires BalOk(bal2, lb) && BalOk(bal2, rb) && BalOk(bal2, a) && BalOk(bal2, d)
    requires CtxBalOk(bal2, up, h + 1)
    requires BalAt(bal2, x) == DoubleLeft(nb) && BalAt(bal2, y) == DoubleRight(nb)
    requires BalAt(bal2, n) == BALANCED
    ensures BalOk(bal2, Plug(up, Node(Node(a, x, lb), n, Node(rb, y, d))))
  {
    DoubleArith(nb, Height(lb), Height(rb), h);
    DoubleSides(bal2, a, x, lb, rb, y, d, h);
    TopPlug(bal2, Node(a, x, lb), n, Node(rb, y, d), h, up);
  }

  /** The two new children of a double rotation are AVL trees of height
      `h`. */
  lemma {:induction false} DoubleSides(bal2: seq<int>, a: Tree, x: nat, lb: Tree, rb: Tree, y: nat, d: Tree, h: nat)
    requires h >= 1 && Height(a) == h - 1 && Height(d) == h - 1
    requires BalOk(bal2, lb) && BalOk(bal2, rb) && BalOk(bal2, a) && BalOk(bal2, d)
    requires BalAt(bal2, x) == (h - 1) - Height(lb) && 1 + Max(h - 1, Height(lb)) == h
    requires BalAt(bal2, y) == Height(rb) - (h - 1) && 1 + Max(Height(rb), h - 1) == h
    requires RIGHT_HEAVY <= BalAt(bal2, x) <= LEFT_HEAVY && RIGHT_HEAVY <= BalAt(bal2, y) <= LEFT_HEAVY
    ensures BalOk(bal2, Node(a, x, lb)) && Height(Node(a, x, lb)) == h
    ensures BalOk(bal2, Node(rb, y, d)) && Height(Node(rb, y, d)) == h
  {
    NodeOk(bal2, a, x, lb, h - 1, Height(lb));
    NodeOk(bal2, rb, y, d, Height(rb), h - 1);
  }


  /** The heights around a double rotation: `n`'s two subtrees of heights
      `hl` and `hr` under a node of height `h`, and two outer subtrees of
      height `h - 1`, regroup into two nodes of height `h` whose balances
      are `DoubleLeft` and `DoubleRight` of `n`'s. */
  lemma {:induction false} DoubleArith(nb: int, hl: nat, hr: nat, h: nat)
    requires nb == hl - hr && RIGHT_HEAVY <= nb <= LEFT_HEAVY && h == 1 + Max(hl, hr)
    ensures h >= 1 && RIGHT_HEAVY <= DoubleLeft(nb) <= LEFT_HEAVY && RIGHT_HEAVY <= DoubleRight(nb) <= LEFT_HEAVY
    ensures DoubleLeft(nb) == (h - 1) - hl && 1 + Max(h - 1, hl) == h
    ensures DoubleRight(nb) == hr - (h - 1) && 1 + Max(hr, h - 1) == h
  {
  }

}

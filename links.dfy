/** How the arena's link fields (left, right and parent, one sequence each,
    addressed by node index) lay out a shape: every node's child fields
    name the roots of its subtrees and every node's parent field names the
    node whose child slot holds it (NIL for the root). */
module Links {
  import opened Shape

  /** The subtree `t` hangs at index `n` below the node `par`. */
  ghost predicate Linked(L: seq<int>, R: seq<int>, P: seq<int>, t: Tree, n: int, par: int)
    decreases t
  {
    match t
    case Nil => n == NIL
    case Node(l, i, r) =>
      n == i && i < |L| && i < |R| && i < |P| && P[i] == par &&
      Linked(L, R, P, l, L[i], i) && Linked(L, R, P, r, R[i], i)
  }

  /** The context `c` is laid out with node `hole` in its hole, and the
      whole tree then has the root `root`. */
  ghost predicate LinkedCtx(L: seq<int>, R: seq<int>, P: seq<int>, c: Ctx, hole: int, root: int)
    decreases c
  {
    match c
    case Top => root == hole
    case InL(p, s, up) =>
      p < |L| && p < |R| && p < |P| && L[p] == hole && P[p] == ParentId(up) &&
      Linked(L, R, P, s, R[p], p) && LinkedCtx(L, R, P, up, p, root)
    case InR(p, s, up) =>
      p < |L| && p < |R| && p < |P| && R[p] == hole && P[p] == ParentId(up) &&
      Linked(L, R, P, s, L[p], p) && LinkedCtx(L, R, P, up, p, root)
  }

  /** `b` holds the same values as `a` at the indices `S` that `a` has. */
  ghost predicate Agree(a: seq<int>, b: seq<int>, S: set<int>) {
    forall j :: j in S && 0 <= j < |a| ==> j < |b| && b[j] == a[j]
  }

  lemma {:induction false} LinkedId(L: seq<int>, R: seq<int>, P: seq<int>, t: Tree, n: int, par: int)
    requires Linked(L, R, P, t, n, par)
    ensures n == Id(t)
    ensures forall j :: j in Ids(t) ==> 0 <= j < |L| && j < |R| && j < |P|
    decreases t
  {
    match t
    case Nil =>
    case Node(l, i, r) =>
      LinkedId(L, R, P, l, L[i], i);
      LinkedId(L, R, P, r, R[i], i);
  }

  lemma {:induction false} LinkedCtxBounds(L: seq<int>, R: seq<int>, P: seq<int>, c: Ctx, hole: int, root: int)
    requires LinkedCtx(L, R, P, c, hole, root)
    ensures forall j :: j in CtxIds(c) ==> 0 <= j < |L| && j < |R| && j < |P|
    decreases c
  {
    match c
    case Top =>
    case InL(p, s, up) =>
      LinkedId(L, R, P, s, R[p], p);
      LinkedCtxBounds(L, R, P, up, p, root);
    case InR(p, s, up) =>
      LinkedId(L, R, P, s, L[p], p);
      LinkedCtxBounds(L, R, P, up, p, root);
  }

  /** The whole tree `Plug(c, t)` is laid out from `root` exactly when the
      context is laid out around `t`'s root and `t` hangs below the hole's
      parent. */
  lemma {:induction false} LinkedPlug(L: seq<int>, R: seq<int>, P: seq<int>, c: Ctx, t: Tree, root: int)
    ensures Linked(L, R, P, Plug(c, t), root, NIL) <==>
            LinkedCtx(L, R, P, c, Id(t), root) && Linked(L, R, P, t, Id(t), ParentId(c))
    decreases c
  {
    match c
    case Top =>
      if Linked(L, R, P, t, root, NIL) { LinkedId(L, R, P, t, root, NIL); }
    case InL(p, s, up) =>
      LinkedPlug(L, R, P, up, Node(t, p, s), root);
      if Linked(L, R, P, Node(t, p, s), p, ParentId(up)) { LinkedId(L, R, P, t, L[p], p); }
    case InR(p, s, up) =>
      LinkedPlug(L, R, P, up, Node(s, p, t), root);
      if Linked(L, R, P, Node(s, p, t), p, ParentId(up)) { LinkedId(L, R, P, t, R[p], p); }
  }

  /** A subtree keeps its layout in new link sequences that agree with the
      old ones on its nodes, except that its root may get a new parent. */
  lemma {:induction false} LinkedTransfer(L: seq<int>, R: seq<int>, P: seq<int>,
                                          L': seq<int>, R': seq<int>, P': seq<int>,
                                          t: Tree, n: int, par: int, par': int)
    requires Linked(L, R, P, t, n, par) && Distinct(t)
    requires Agree(L, L', Ids(t)) && Agree(R, R', Ids(t)) && Agree(P, P', Ids(t) - {n})
    requires t.Node? ==> n < |P'| && P'[n] == par'
    ensures Linked(L', R', P', t, n, par')
    decreases t
  {
    match t
    case Nil =>
    case Node(l, i, r) =>
      LinkedId(L, R, P, t, n, par);
      LinkedId(L, R, P, l, L[i], i);
      LinkedId(L, R, P, r, R[i], i);
      assert Ids(l) <= Ids(t) - {i} && Ids(r) <= Ids(t) - {i};
      LinkedTransfer(L, R, P, L', R', P', l, L[i], i, i);
      LinkedTransfer(L, R, P, L', R', P', r, R[i], i, i);
  }

  /** The same for a context: new link sequences that agree with the old
      ones on all of its indices keep its layout. */
  lemma {:induction false} LinkedCtxFrame(L: seq<int>, R: seq<int>, P: seq<int>,
                                          L': seq<int>, R': seq<int>, P': seq<int>,
                                          c: Ctx, hole: int, root: int)
    requires LinkedCtx(L, R, P, c, hole, root) && DistinctCtx(c)
    requires Agree(L, L', CtxIds(c)) && Agree(R, R', CtxIds(c)) && Agree(P, P', CtxIds(c))
    ensures LinkedCtx(L', R', P', c, hole, root)
    decreases c
  {
    match c
    case Top =>
    case InL(p, s, up) =>
      LinkedId(L, R, P, s, R[p], p);
      LinkedTransfer(L, R, P, L', R', P', s, R[p], p, p);
      LinkedCtxFrame(L, R, P, L', R', P', up, p, root);
    case InR(p, s, up) =>
      LinkedId(L, R, P, s, L[p], p);
      LinkedTransfer(L, R, P, L', R', P', s, L[p], p, p);
      LinkedCtxFrame(L, R, P, L', R', P', up, p, root);
  }

  /** Re-pointing the hole's slot: the hole's parent now names `hole'` in
      the child field that held `hole` (or the root becomes `hole'`), and
      nothing else of the context changes. */
  lemma {:induction false} LinkedCtxRepoint(L: seq<int>, R: seq<int>, P: seq<int>,
                         L': seq<int>, R': seq<int>, P': seq<int>,
                         c: Ctx, hole: int, hole': int, root: int, root': int)
    requires LinkedCtx(L, R, P, c, hole, root) && DistinctCtx(c)
    requires Agree(L, L', CtxIds(c) - {ParentId(c)}) && Agree(R, R', CtxIds(c) - {ParentId(c)})
    requires Agree(P, P', CtxIds(c))
    requires c.InL? ==> c.pid < |L'| && c.pid < |R'| && L'[c.pid] == hole' && R'[c.pid] == R[c.pid]
    requires c.InR? ==> c.pid < |L'| && c.pid < |R'| && R'[c.pid] == hole' && L'[c.pid] == L[c.pid]
    requires root' == if c.Top? then hole' else root
    ensures LinkedCtx(L', R', P', c, hole', root')
  {
    match c
    case Top =>
    case InL(p, s, up) =>
      LinkedId(L, R, P, s, R[p], p);
      RepointFrames(L, R, P, L', R', P', c);
      LinkedTransfer(L, R, P, L', R', P', s, R[p], p, p);
      LinkedCtxFrame(L, R, P, L', R', P', up, p, root);
    case InR(p, s, up) =>
      LinkedId(L, R, P, s, L[p], p);
      RepointFrames(L, R, P, L', R', P', c);
      LinkedTransfer(L, R, P, L', R', P', s, L[p], p, p);
      LinkedCtxFrame(L, R, P, L', R', P', up, p, root);
  }

  /** The parts of a context other than the hole's parent keep their links. */
  lemma RepointFrames(L: seq<int>, R: seq<int>, P: seq<int>,
                      L': seq<int>, R': seq<int>, P': seq<int>, c: Ctx)
    requires c != Top && DistinctCtx(c)
    requires Agree(L, L', CtxIds(c) - {c.pid}) && Agree(R, R', CtxIds(c) - {c.pid})
    requires Agree(P, P', CtxIds(c))
    ensures Agree(L, L', Ids(c.sib)) && Agree(R, R', Ids(c.sib)) && Agree(P, P', Ids(c.sib) - {Id(c.sib)})
    ensures Agree(L, L', CtxIds(c.up)) && Agree(R, R', CtxIds(c.up)) && Agree(P, P', CtxIds(c.up))
  {
    assert Ids(c.sib) <= CtxIds(c) - {c.pid};
    assert CtxIds(c.up) <= CtxIds(c) - {c.pid};
    AgreeSub(L, L', CtxIds(c) - {c.pid}, Ids(c.sib));
    AgreeSub(R, R', CtxIds(c) - {c.pid}, Ids(c.sib));
    AgreeSub(P, P', CtxIds(c), Ids(c.sib) - {Id(c.sib)});
    AgreeSub(L, L', CtxIds(c) - {c.pid}, CtxIds(c.up));
    AgreeSub(R, R', CtxIds(c) - {c.pid}, CtxIds(c.up));
    AgreeSub(P, P', CtxIds(c), CtxIds(c.up));
  }

  lemma AgreeSub(a: seq<int>, b: seq<int>, S: set<int>, T: set<int>)
    requires Agree(a, b, S) && T <= S
    ensures Agree(a, b, T)
  {
  }

  /** Outside the root position, the root of the whole tree is one of the
      context's ancestors. */
  lemma {:induction false} LinkedCtxRoot(L: seq<int>, R: seq<int>, P: seq<int>, c: Ctx, hole: int, root: int)
    requires LinkedCtx(L, R, P, c, hole, root)
    ensures c.Top? ==> root == hole
    ensures !c.Top? ==> root in CtxIds(c)
    decreases c
  {
    match c
    case Top =>
    case InL(p, s, up) => LinkedCtxRoot(L, R, P, up, p, root);
    case InR(p, s, up) => LinkedCtxRoot(L, R, P, up, p, root);
  }

  /** The context part of a rotation at the hole's root `n`, which makes
      `b` the new root of the hole: the hole's parent re-points the child
      field that held `n`, nothing else of the context changes, and the
      tree's root moves to `b` exactly when it was `n`. */
  lemma {:induction false} LinkedCtxRotated(L: seq<int>, R: seq<int>, P: seq<int>,
                                            L': seq<int>, R': seq<int>, P': seq<int>,
                                            c: Ctx, n: nat, b: nat, S: set<int>, root: int)
    requires LinkedCtx(L, R, P, c, n, root) && DistinctCtx(c)
    requires n in S && b in S && CtxIds(c) !! S && n != b
    requires c.InL? ==> R[c.pid] !in S
    requires |R| == |L| && |P| == |L| && |L'| == |L| && |R'| == |R| && |P'| == |P|
    requires forall j :: 0 <= j < |L| && j !in S ==>
               L'[j] == if j == ParentId(c) && R[j] != n then b else L[j]
    requires forall j :: 0 <= j < |R| && j !in S ==>
               R'[j] == if j == ParentId(c) && R[j] == n then b else R[j]
    requires forall j :: 0 <= j < |P| && j !in S ==> P'[j] == P[j]
    ensures LinkedCtx(L', R', P', c, b, if root == n then b else root)
  {
    LinkedCtxRoot(L, R, P, c, n, root);
    LinkedCtxBounds(L, R, P, c, n, root);
    LinkedCtxRepoint(L, R, P, L', R', P', c, n, b, root, if root == n then b else root);
  }

  /** After `left_rotate` around `n`, whose right child is `b`: the arena
      lays out the rotated shape. */
  lemma {:induction false} LinkedRotL(L: seq<int>, R: seq<int>, P: seq<int>,
                                      L': seq<int>, R': seq<int>, P': seq<int>,
                                      c: Ctx, cl: Tree, n: nat, al: Tree, b: nat, br: Tree, root: int)
    requires Linked(L, R, P, Plug(c, Node(cl, n, Node(al, b, br))), root, NIL)
    requires Distinct(Plug(c, Node(cl, n, Node(al, b, br))))
    requires |R| == |L| && |P| == |L| && |L'| == |L| && |R'| == |R| && |P'| == |P|
    requires forall j :: 0 <= j < |P| ==>
               P'[j] == if j == b then ParentId(c) else if j == n then b else if j == Id(al) then n else P[j]
    requires forall j :: 0 <= j < |L| ==>
               L'[j] == if j == b then n else if j == ParentId(c) && R[j] != n then b else L[j]
    requires forall j :: 0 <= j < |R| ==>
               R'[j] == if j == n then Id(al) else if j == ParentId(c) && R[j] == n then b else R[j]
    ensures Linked(L', R', P', Plug(c, Node(Node(cl, n, al), b, br)), if root == n then b else root, NIL)
  {
    var sub := Node(cl, n, Node(al, b, br));
    LinkedPlug(L, R, P, c, sub, root);
    DistinctPlug(c, sub);
    var S := Ids(sub);
    assert S == Ids(cl) + {n} + (Ids(al) + {b} + Ids(br));
    LinkedId(L, R, P, sub, n, ParentId(c));
    if c.InL? {
      LinkedId(L, R, P, c.sib, R[c.pid], c.pid);
      assert R[c.pid] !in S by {
        if c.sib.Node? { assert c.sib.id in Ids(c.sib); }
      }
    }
    LinkedCtxRotated(L, R, P, L', R', P', c, n, b, S, root);
    LinkedSubRotL(L, R, P, L', R', P', cl, n, al, b, br, ParentId(c));
    LinkedPlug(L', R', P', c, Node(Node(cl, n, al), b, br), if root == n then b else root);
  }

  lemma {:induction false} LinkedSubRotL(L: seq<int>, R: seq<int>, P: seq<int>,
                                         L': seq<int>, R': seq<int>, P': seq<int>,
                                         cl: Tree, n: nat, al: Tree, b: nat, br: Tree, par: int)
    requires Linked(L, R, P, Node(cl, n, Node(al, b, br)), n, par) && Distinct(Node(cl, n, Node(al, b, br)))
    requires |L'| == |L| && |R'| == |R| && |P'| == |P|
    requires forall j :: 0 <= j < |P| ==>
               P'[j] == if j == b then par else if j == n then b else if j == Id(al) then n else P[j]
    requires forall j :: 0 <= j < |L| && j in Ids(Node(cl, n, Node(al, b, br))) ==>
               L'[j] == if j == b then n else L[j]
    requires forall j :: 0 <= j < |R| && j in Ids(Node(cl, n, Node(al, b, br))) ==>
               R'[j] == if j == n then Id(al) else R[j]
    ensures Linked(L', R', P', Node(Node(cl, n, al), b, br), b, par)
  {
    LinkedId(L, R, P, cl, L[n], n);
    LinkedId(L, R, P, al, L[b], b);
    LinkedId(L, R, P, br, R[b], b);
    assert Ids(Node(cl, n, Node(al, b, br))) == Ids(cl) + {n} + (Ids(al) + {b} + Ids(br));
    LinkedTransfer(L, R, P, L', R', P', cl, L[n], n, n);
    LinkedTransfer(L, R, P, L', R', P', al, L[b], b, n);
    LinkedTransfer(L, R, P, L', R', P', br, R[b], b, b);
  }

  /** After `right_rotate` around `n`, whose left child is `b`: the arena
      lays out the rotated shape. */
  lemma {:induction false} LinkedRotR(L: seq<int>, R: seq<int>, P: seq<int>,
                                      L': seq<int>, R': seq<int>, P': seq<int>,
                                      c: Ctx, al: Tree, b: nat, bl: Tree, n: nat, cr: Tree, root: int)
    requires Linked(L, R, P, Plug(c, Node(Node(al, b, bl), n, cr)), root, NIL)
    requires Distinct(Plug(c, Node(Node(al, b, bl), n, cr)))
    requires |R| == |L| && |P| == |L| && |L'| == |L| && |R'| == |R| && |P'| == |P|
    requires forall j :: 0 <= j < |P| ==>
               P'[j] == if j == b then ParentId(c) else if j == n then b else if j == Id(bl) then n else P[j]
    requires forall j :: 0 <= j < |L| ==>
               L'[j] == if j == n then Id(bl) else if j == ParentId(c) && R[j] != n then b else L[j]
    requires forall j :: 0 <= j < |R| ==>
               R'[j] == if j == b then n else if j == ParentId(c) && R[j] == n then b else R[j]
    ensures Linked(L', R', P', Plug(c, Node(al, b, Node(bl, n, cr))), if root == n then b else root, NIL)
  {
    var sub := Node(Node(al, b, bl), n, cr);
    LinkedPlug(L, R, P, c, sub, root);
    DistinctPlug(c, sub);
    var S := Ids(sub);
    assert S == (Ids(al) + {b} + Ids(bl)) + {n} + Ids(cr);
    LinkedId(L, R, P, sub, n, ParentId(c));
    if c.InL? {
      LinkedId(L, R, P, c.sib, R[c.pid], c.pid);
      assert R[c.pid] !in S by {
        if c.sib.Node? { assert c.sib.id in Ids(c.sib); }
      }
    }
    LinkedCtxRotated(L, R, P, L', R', P', c, n, b, S, root);
    LinkedSubRotR(L, R, P, L', R', P', al, b, bl, n, cr, ParentId(c));
    LinkedPlug(L', R', P', c, Node(al, b, Node(bl, n, cr)), if root == n then b else root);
  }

  lemma {:induction false} LinkedSubRotR(L: seq<int>, R: seq<int>, P: seq<int>,
                                         L': seq<int>, R': seq<int>, P': seq<int>,
                                         al: Tree, b: nat, bl: Tree, n: nat, cr: Tree, par: int)
    requires Linked(L, R, P, Node(Node(al, b, bl), n, cr), n, par) && Distinct(Node(Node(al, b, bl), n, cr))
    requires |L'| == |L| && |R'| == |R| && |P'| == |P|
    requires forall j :: 0 <= j < |P| ==>
               P'[j] == if j == b then par else if j == n then b else if j == Id(bl) then n else P[j]
    requires forall j :: 0 <= j < |L| && j in Ids(Node(Node(al, b, bl), n, cr)) ==>
               L'[j] == if j == n then Id(bl) else L[j]
    requires forall j :: 0 <= j < |R| && j in Ids(Node(Node(al, b, bl), n, cr)) ==>
               R'[j] == if j == b then n else R[j]
    ensures Linked(L', R', P', Node(al, b, Node(bl, n, cr)), b, par)
  {
    LinkedId(L, R, P, cr, R[n], n);
    LinkedId(L, R, P, al, L[b], b);
    LinkedId(L, R, P, bl, R[b], b);
    assert Ids(Node(Node(al, b, bl), n, cr)) == (Ids(al) + {b} + Ids(bl)) + {n} + Ids(cr);
    LinkedTransfer(L, R, P, L', R', P', cr, R[n], n, n);
    LinkedTransfer(L, R, P, L', R', P', bl, R[b], b, n);
    LinkedTransfer(L, R, P, L', R', P', al, L[b], b, b);
  }

  /** Splicing out the node `d` at the hole of `c`: the hole's parent (or
      the root) now names `v`, the root of one of `d`'s subtrees `nt`, and
      `v`'s parent field names the hole's parent; `d` and its other subtree
      drop out of the tree. */
  lemma {:induction false} LinkedSplice(L: seq<int>, R: seq<int>, P: seq<int>,
                                        L': seq<int>, R': seq<int>, P': seq<int>,
                                        c: Ctx, t: Tree, nt: Tree, root: int, root': int)
    requires Linked(L, R, P, Plug(c, t), root, NIL) && Distinct(Plug(c, t))
    requires t.Node? && (nt == t.left || nt == t.right)
    requires |R| == |L| && |P| == |L| && |L'| == |L| && |R'| == |R| && |P'| == |P|
    requires forall j :: 0 <= j < |L| ==>
               L'[j] == if j == ParentId(c) && R[j] != t.id then Id(nt) else L[j]
    requires forall j :: 0 <= j < |R| ==>
               R'[j] == if j == ParentId(c) && R[j] == t.id then Id(nt) else R[j]
    requires forall j :: 0 <= j < |P| ==> P'[j] == if j == Id(nt) then ParentId(c) else P[j]
    requires root' == if ParentId(c) == NIL then Id(nt) else root
    ensures Linked(L', R', P', Plug(c, nt), root', NIL)
  {
    LinkedPlug(L, R, P, c, t, root);
    DistinctPlug(c, t);
    LinkedId(L, R, P, t, t.id, ParentId(c));
    LinkedCtxBounds(L, R, P, c, t.id, root);
    var S := Ids(t);
    assert S == Ids(t.left) + {t.id} + Ids(t.right);
    assert Agree(L, L', Ids(nt)) && Agree(R, R', Ids(nt)) && Agree(P, P', Ids(nt) - {Id(nt)});
    if nt == t.left {
      LinkedTransfer(L, R, P, L', R', P', nt, L[t.id], t.id, ParentId(c));
    } else {
      LinkedTransfer(L, R, P, L', R', P', nt, R[t.id], t.id, ParentId(c));
    }
    if c.InL? {
      LinkedId(L, R, P, c.sib, R[c.pid], c.pid);
      assert R[c.pid] != t.id by {
        if c.sib.Node? { assert c.sib.id in Ids(c.sib); }
      }
    }
    LinkedCtxRepoint(L, R, P, L', R', P', c, t.id, Id(nt), root, root');
    LinkedPlug(L', R', P', c, nt, root');
  }

  /** What the rebalancing walk reads from the links at a hole: the hole's
      node, its parent `p` and grandparent `gp`, the parent field of each,
      and which child field of `p` (of `gp`) holds the hole (holds `p`). */
  lemma {:induction false} LinkedHole(L: seq<int>, R: seq<int>, P: seq<int>, c: Ctx, s: Tree, root: int)
    requires Linked(L, R, P, Plug(c, s), root, NIL) && Distinct(Plug(c, s)) && s.Node? && !c.Top?
    requires |R| == |L| && |P| == |L|
    ensures 0 <= s.id < |L| && 0 <= c.pid < |L| && s.id != c.pid
    ensures P[s.id] == c.pid && P[c.pid] == ParentId(c.up)
    ensures L[c.pid] == s.id <==> c.InL?
    ensures !c.up.Top? ==> 0 <= c.up.pid < |L| && s.id != c.up.pid && c.pid != c.up.pid
    ensures !c.up.Top? ==> (c.pid == L[c.up.pid] <==> c.up.InL?) && (c.pid == R[c.up.pid] <==> c.up.InR?)
    ensures c.pid in Ids(Plug(c, s)) && (!c.up.Top? ==> c.up.pid in Ids(Plug(c, s)))
  {
    PlugIds(c, s);
    LinkedPlug(L, R, P, c, s, root);
    DistinctPlug(c, s);
    LinkedCtxBounds(L, R, P, c, s.id, root);
    assert c.pid in CtxIds(c);
    assert s.id in Ids(s);
    if c.InR? {
      LinkedId(L, R, P, c.sib, L[c.pid], c.pid);
      if c.sib.Node? { assert c.sib.id in Ids(c.sib); }
    }
    if !c.up.Top? {
      assert c.up.pid in CtxIds(c);
      if c.up.InR? {
        LinkedId(L, R, P, c.up.sib, L[c.up.pid], c.up.pid);
        if c.up.sib.Node? { assert c.up.sib.id in Ids(c.up.sib); }
      } else {
        LinkedId(L, R, P, c.up.sib, R[c.up.pid], c.up.pid);
        if c.up.sib.Node? { assert c.up.sib.id in Ids(c.up.sib); }
      }
    }
  }
}

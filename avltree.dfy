/** The AVL tree itself: a node arena with one sequence per node field and
    a root index, as the object that `insert`, `remove`, the rotations, the
    rebalancing walk, `search`, `clear` and the traversals work on. */
module AVL {
  import opened Shape
  import opened Links
  import opened Order
  import opened Balance
  import opened Describe
  import opened Rebuild
  import opened Labels

  class AVLTree {
    /** Node fields, one entry per arena slot: `key[i]`, `balance[i]`,
        `left[i]`, `right[i]` and `parent[i]` are the fields of node `i`;
        NIL is the null pointer.  Slots of deleted nodes stay in the arena,
        unreachable from `root`. */
    var key: seq<int>
    var balance: seq<int>
    var left: seq<int>
    var right: seq<int>
    var parent: seq<int>
    var root: int
    /** The nodes reachable from `root`, as a tree of arena indices. */
    ghost var shape: Tree

    /** The links lay out `shape` from `root` with consistent parent fields,
        no node occurs twice, and the in-order keys strictly increase. */
    ghost predicate Valid()
      reads this
    {
      ArenaOk(key, balance, left, right, parent, root, shape)
    }

    /** The keys of the tree in symmetric order. */
    ghost function Contents(): seq<int>
      reads this
    {
      Keys(key, shape)
    }

    /** Every balance field is the height difference of its node's subtrees
        and lies in {RIGHT_HEAVY, BALANCED, LEFT_HEAVY}. */
    ghost predicate IsAVL()
      reads this
    {
      BalOk(balance, shape)
    }

    /** The subtree whose root is the node `n` (empty for NIL). */
    ghost function SubtreeAt(n: int): Tree
      reads this
      requires n == NIL || n in Ids(shape)
    {
      if n == NIL then Nil else Focus(shape, n).1
    }

    constructor ()
      ensures Valid() && IsAVL()
      ensures root == NIL && shape == Nil && Contents() == []
      ensures key == [] && balance == [] && left == [] && right == [] && parent == []
    {
      key, balance, left, right, parent := [], [], [], [], [];
      root := NIL;
      shape := Nil;
    }

    lemma {:induction false} SubtreeAtRoot()
      requires Valid()
      ensures root == NIL || root in Ids(shape)
      ensures SubtreeAt(root) == shape
    {
      if shape.Node? {
        assert root == shape.id;
      }
    }

    /** The binary-search descent from `node`: NIL, or a node of that subtree
        holding `k`; on an ordered tree NIL exactly when `k` is absent. */
    method Search(node: int, k: int) returns (r: int)
      requires Valid() && (node == NIL || node in Ids(shape))
      ensures r == NIL || (r in Ids(SubtreeAt(node)) && KeyAt(key, r) == k)
      ensures r == NIL <==> k !in Keys(key, SubtreeAt(node))
    {
      ghost var t0 := SubtreeAt(node);
      ghost var t := t0;
      ghost var par: int := NIL;
      if node != NIL {
        var f := Focus(shape, node);
        LinkedPlug(left, right, parent, f.0, f.1, root);
        OrderedPlug(key, f.0, f.1);
        par := ParentId(f.0);
      }
      r := node;
      while r != NIL && key[r] != k
        invariant Linked(left, right, parent, t, r, par) && Ordered(key, t)
        invariant Ids(t) <= Ids(t0)
        invariant k in Keys(key, t0) <==> k in Keys(key, t)
        decreases t
      {
        SearchStep(key, t, k);
        if k < key[r] {
          r := left[r];
          par := t.id;
          t := t.left;
        } else {
          r := right[r];
          par := t.id;
          t := t.right;
        }
      }
      if r != NIL {
        assert Keys(key, t) == Keys(key, t.left) + [k] + Keys(key, t.right);
      }
    }

    /** Whether `k` is in the tree: the search from the root. */
    method Find(k: int) returns (r: bool)
      requires Valid()
      ensures r <==> k in Contents()
    {
      SubtreeAtRoot();
      var n := Search(root, k);
      r := n != NIL;
    }

    /** `inorder_sequence(node)`: the labels of the subtree laid out from
        `node`, left subtree first, then the node, then the right subtree. */
    function InorderFrom(n: int, ghost t: Tree, ghost par: int): (r: seq<string>)
      reads this
      requires |key| == |left| && |balance| == |left| && Linked(left, right, parent, t, n, par)
      ensures r == Inorder(LabelTree(key, balance, t))
      decreases t
    {
      if n == NIL then []
      else InorderFrom(left[n], t.left, n) + [NodeLabel(key[n], balance[n])] + InorderFrom(right[n], t.right, n)
    }

    /** `preorder_sequence(node)`: the node's label, then the labels of its
        left subtree, then those of its right subtree. */
    function PreorderFrom(n: int, ghost t: Tree, ghost par: int): (r: seq<string>)
      reads this
      requires |key| == |left| && |balance| == |left| && Linked(left, right, parent, t, n, par)
      ensures r == Preorder(LabelTree(key, balance, t))
      decreases t
    {
      if n == NIL then []
      else [NodeLabel(key[n], balance[n])] + PreorderFrom(left[n], t.left, n) + PreorderFrom(right[n], t.right, n)
    }

    /** `inorder_sequence()`: the labels of the whole tree in symmetric
        order; the keys they carry are the tree's keys, in increasing order. */
    function InorderSequence(): (r: seq<string>)
      reads this
      requires Valid()
      ensures r == Inorder(LabelTree(key, balance, shape))
      ensures |r| == |Contents()| && forall i :: 0 <= i < |r| ==> LabelKey(r[i]) == Contents()[i]
      ensures Sorted(Contents())
      ensures NoDup(r)
    {
      InorderLabelKeys(key, balance, shape);
      InorderLabelsDistinct(key, balance, shape);
      InorderFrom(root, shape, NIL)
    }

    /** `preorder_sequence()`: the labels of the whole tree, each node
        before its subtrees; the same labels as the in-order sequence, in
        another order, starting with the root's. */
    function PreorderSequence(): (r: seq<string>)
      reads this
      requires Valid()
      ensures r == Preorder(LabelTree(key, balance, shape))
      ensures multiset(r) == multiset(InorderSequence())
      ensures root != NIL ==> |r| > 0 && r[0] == NodeLabel(key[root], balance[root])
    {
      RootNode();
      TraversalsPermute(LabelTree(key, balance, shape));
      PreorderFrom(root, shape, NIL)
    }

    /** The root slot is the top node of the shape, or NIL for the empty
        tree. */
    lemma {:induction false} RootNode()
      requires Valid()
      ensures root == NIL <==> shape == Nil
      ensures root != NIL ==> shape.Node? && shape.id == root && 0 <= root < |key| && root < |balance|
      ensures root != NIL ==> |Preorder(LabelTree(key, balance, shape))| > 0 &&
                              Preorder(LabelTree(key, balance, shape))[0] == NodeLabel(key[root], balance[root])
    {
    }

    /** The class-level form of `Labels.BalancedLabels`: on an AVL tree
        every label shows a balance in {RIGHT_HEAVY, BALANCED, LEFT_HEAVY}. */
    lemma {:induction false} LabelsBalanced()
      requires Valid() && IsAVL()
      ensures forall s :: s in InorderSequence() ==> RIGHT_HEAVY <= LabelBalance(s) <= LEFT_HEAVY
    {
      BalancedLabels(key, balance, shape);
    }

    /** What the driver does after each update: `construct_tree` on the
        pre-order and in-order sequences rebuilds the tree of labels. */
    lemma {:induction false} RebuildFromTraversals()
      requires Valid()
      ensures Construct(PreorderSequence(), InorderSequence()) == Ok(LabelTree(key, balance, shape))
    {
      InorderLabelsDistinct(key, balance, shape);
      ConstructComplete(LabelTree(key, balance, shape));
    }

    /** `clear(node)`: children first, every node of the subtree laid out
        from `node` loses its links (its slot is released), and the
        reference to it becomes NIL. */
    method ClearNode(node: int, ghost t: Tree, ghost par: int) returns (r: int)
      modifies this
      requires |right| == |left| && |parent| == |left|
      requires Linked(left, right, parent, t, node, par) && Distinct(t)
      ensures r == NIL && |left| == old(|left|) && |right| == old(|right|)
      ensures forall j :: j in Ids(t) ==> 0 <= j < |left| && left[j] == NIL && right[j] == NIL
      ensures forall j :: 0 <= j < |left| && j !in Ids(t) ==> left[j] == old(left[j]) && right[j] == old(right[j])
      ensures key == old(key) && balance == old(balance) && parent == old(parent)
      ensures root == old(root) && shape == old(shape)
      decreases t
    {
      if node == NIL {
        return NIL;
      }
      var l := ClearNode(left[node], t.left, node);
      left := left[node := l];
      LinkedTransfer(old(left), old(right), parent, left, right, parent, t.right, old(right)[node], node, node);
      var rn := ClearNode(right[node], t.right, node);
      right := right[node := rn];
      r := NIL;
    }

    /** `clear()`: the tree becomes empty; every former node has lost its
        links. */
    method Clear()
      modifies this
      requires Valid()
      ensures Valid() && IsAVL() && Contents() == [] && root == NIL
      ensures key == old(key) && balance == old(balance) && parent == old(parent)
      ensures |left| == old(|left|) && |right| == old(|right|)
      ensures forall j :: j in old(Ids(shape)) ==> 0 <= j < |left| && left[j] == NIL && right[j] == NIL
      ensures forall j :: 0 <= j < |left| && j !in old(Ids(shape)) ==> left[j] == old(left[j]) && right[j] == old(right[j])
    {
      root := ClearNode(root, shape, NIL);
      shape := Nil;
    }

    /** `left_rotate`: around `node`, whose right child `b` becomes the local
        root; nothing happens without a node or a right child.  Returns the
        new local root, which the source writes back into its reference
        argument. */
    method LeftRotate(node: int) returns (top: int)
      modifies this
      requires Valid() && (node == NIL || node in Ids(shape))
      ensures Valid() && key == old(key) && balance == old(balance)
      ensures shape == RotLeftAt(old(shape), node) && Contents() == old(Contents())
      ensures node == NIL || old(right[node]) == NIL ==> top == node && unchanged(this)
      ensures node != NIL && old(right[node]) != NIL ==>
                top == old(right[node]) && root == if old(root) == node then top else old(root)
    {
      if node == NIL || right[node] == NIL {
        top := node;
        RotateNoop(node, true);
        return;
      }
      RotLeftReady(left, right, parent, shape, root, node);
      ghost var L0, R0, P0, root0, shape0 := left, right, parent, root, shape;
      var c := node;
      var b := right[c];
      var p := parent[c];
      parent := parent[b := p];
      parent := parent[c := b];
      if left[b] != NIL {
        parent := parent[left[b] := c];
      }
      if p != NIL {
        if right[p] == c {
          right := right[p := b];
        } else {
          left := left[p := b];
        }
      }
      right := right[c := left[b]];
      left := left[b := c];
      top := b;
      if root == c {
        root := b;
      }
      shape := RotLeftAt(shape, node);
      RotLeftRelinked(key, balance, L0, R0, P0, shape0, root0, node, left, right, parent, root);
      KeysRotAt(key, shape0, node);
    }

    /** `right_rotate`: the mirror image of `LeftRotate`. */
    method RightRotate(node: int) returns (top: int)
      modifies this
      requires Valid() && (node == NIL || node in Ids(shape))
      ensures Valid() && key == old(key) && balance == old(balance)
      ensures shape == RotRightAt(old(shape), node) && Contents() == old(Contents())
      ensures node == NIL || old(left[node]) == NIL ==> top == node && unchanged(this)
      ensures node != NIL && old(left[node]) != NIL ==>
                top == old(left[node]) && root == if old(root) == node then top else old(root)
    {
      if node == NIL || left[node] == NIL {
        top := node;
        RotateNoop(node, false);
        return;
      }
      RotRightReady(left, right, parent, shape, root, node);
      ghost var L0, R0, P0, root0, shape0 := left, right, parent, root, shape;
      var c := node;
      var b := left[c];
      var p := parent[c];
      parent := parent[b := p];
      parent := parent[c := b];
      if right[b] != NIL {
        parent := parent[right[b] := c];
      }
      if p != NIL {
        if right[p] == c {
          right := right[p := b];
        } else {
          left := left[p := b];
        }
      }
      left := left[c := right[b]];
      right := right[b := c];
      top := b;
      if root == c {
        root := b;
      }
      shape := RotRightAt(shape, node);
      RotRightRelinked(key, balance, L0, R0, P0, shape0, root0, node, left, right, parent, root);
      KeysRotAt(key, shape0, node);
    }

    /** `insert`: the descent from the root to the empty slot where `k`
        belongs; a key already present is refused and nothing changes.
        Otherwise a new leaf holding `k` hangs in that slot, the walk
        rebalances above it, and the in-order keys are the old ones with `k`
        in its sorted place.  An AVL tree stays an AVL tree.  The ghost
        results name the slot (`hole`) and the rotations the walk made. */
    method Insert(k: int) returns (r: bool, ghost hole: Ctx, ghost fix: Fix)
      modifies this
      requires Valid()
      ensures Valid()
      ensures r <==> k !in old(Contents())
      ensures !r ==> unchanged(this)
      ensures r ==> key == old(key) + [k] && Contents() == InsertSorted(old(Contents()), k)
      ensures r ==> old(shape) == Plug(hole, Nil) && shape == ApplyFix(Plug(hole, Node(Nil, |old(key)|, Nil)), fix)
      ensures old(IsAVL()) ==> IsAVL()
    {
      fix := NoRotation;
      var found, p;
      found, p, hole := Descend(k);
      if found {
        return false, hole, fix;
      }
      var n := Attach(k, p, hole);
      fix := Rebalance(n, hole, Node(Nil, n, Nil));
      r := true;
    }

    /** The descent of `insert` from the root: it finds `k`, or ends in the
        empty slot `c` below `p` where `k` belongs, between the keys below
        `k` and those above it. */
    method Descend(k: int) returns (found: bool, p: int, ghost c: Ctx)
      requires Valid()
      ensures found <==> k in Contents()
      ensures !found ==> shape == Plug(c, Nil) && p == ParentId(c) && (p == NIL || 0 <= p < |key|)
      ensures !found ==> AllBelow(Before(key, c), k) && AllAbove(After(key, c), k)
    {
      p := NIL;
      var cur := root;
      ghost var t := shape;
      c := Top;
      while cur != NIL
        invariant |left| == |key| && shape == Plug(c, t) && p == ParentId(c) && Ids(t) <= Ids(shape)
        invariant LinkedCtx(left, right, parent, c, cur, root) && Linked(left, right, parent, t, cur, p)
        invariant AllBelow(Before(key, c), k) && AllAbove(After(key, c), k)
        decreases t
      {
        p := cur;
        InsertStep(key, c, t, k);
        if k < key[cur] {
          cur := left[cur];
          c, t := InL(t.id, t.right, c), t.left;
        } else if k > key[cur] {
          cur := right[cur];
          c, t := InR(t.id, t.left, c), t.right;
        } else {
          return true, p, c;
        }
      }
      found := false;
      AbsentAtHole(key, c, k);
      LinkedCtxBounds(left, right, parent, c, cur, root);
      assert p != NIL ==> p in CtxIds(c);
    }

    /** The middle part of `insert`: a new node holding `k` goes into the
        empty slot `c` below `p` that the descent ended in, on the side the
        comparison with `p`'s key picks, or becomes the root of an empty
        tree.  The keys then hold `k` in its sorted place and, on an AVL
        tree, the walk can start at the new leaf. */
    method Attach(k: int, p: int, ghost c: Ctx) returns (n: int)
      modifies this
      requires Valid() && shape == Plug(c, Nil) && p == ParentId(c) && (p == NIL || 0 <= p < |key|)
      requires AllBelow(Before(key, c), k) && AllAbove(After(key, c), k)
      ensures Valid() && n == old(|key|) && key == old(key) + [k] && shape == Plug(c, Node(Nil, n, Nil))
      ensures Contents() == InsertSorted(old(Contents()), k)
      ensures balance == old(balance) + [BALANCED] && parent == old(parent) + [p]
      ensures root == if p == NIL then n else old(root)
      ensures left == if p != NIL && k < old(key)[p] then (old(left) + [NIL])[p := n] else old(left) + [NIL]
      ensures right == if p != NIL && !(k < old(key)[p]) then (old(right) + [NIL])[p := n] else old(right) + [NIL]
      ensures old(IsAVL()) ==> Grown(balance, c, Node(Nil, n, Nil))
    {
      ghost var key0, bal0, L0, R0, P0, root0 := key, balance, left, right, parent, root;
      n := NewNode(k);
      parent := parent[n := p];
      if p == NIL {
        root := n;
      } else if key[n] < key[p] {
        left := left[p := n];
      } else {
        right := right[p := n];
      }
      shape := Plug(c, Node(Nil, n, Nil));
      AttachLeaf(key0, bal0, L0, R0, P0, root0, c, k, left, right, parent, root);
    }

    /** `new AVLNode(key)`: a fresh arena slot holding `k`, balanced and with
        no links. */
    method NewNode(k: int) returns (n: int)
      modifies this
      ensures n == old(|key|) && key == old(key) + [k] && balance == old(balance) + [BALANCED]
      ensures left == old(left) + [NIL] && right == old(right) + [NIL] && parent == old(parent) + [NIL]
      ensures root == old(root) && shape == old(shape)
    {
      n := |key|;
      key, balance := key + [k], balance + [BALANCED];
      left, right, parent := left + [NIL], right + [NIL], parent + [NIL];
    }

    /** `remove`: the node holding `k` is found by `search`; a missing key
        changes nothing.  A node with at most one child is replaced by that
        child.  For a node with two children, the rightmost node of its left
        subtree (the predecessor) gives its key to the node and is replaced
        by its own right child, which is always empty: the predecessor's left
        subtree is detached with it (`RemoveSpec`'s `lost`).  Balance fields
        are left as they are: the closing call of the rebalancing walk on the
        root does nothing. */
    method Remove(k: int) returns (r: bool)
      modifies this
      requires Valid()
      ensures Valid() && balance == old(balance)
      ensures r <==> k in old(Contents())
      ensures !r ==> unchanged(this)
      ensures r ==> shape == RemoveSpec(old(key), old(shape), k).shape && key == RemoveSpec(old(key), old(shape), k).key
      ensures Contents() == Filter(old(Contents()), [k] + Keys(old(key), RemoveSpec(old(key), old(shape), k).lost))
      ensures k !in Contents()
    {
      SubtreeAtRoot();
      var n := Search(root, k);
      if n == NIL {
        RemoveAbsent(key, shape, k);
        return false;
      }
      var par := Delete(n, k);
      if par == NIL {
        return true;
      }
      LinkedId(left, right, parent, shape, root, NIL);
      ghost var fx := Rebalance(root, Top, shape);
      r := true;
    }

    /** The body of `remove` once `search` found the node `n` holding `k`:
        the excision of `n` (through its predecessor when it has two
        children) and the unlinking.  Returns the parent of the unlinked
        node. */
    method Delete(n: int, ghost k: int) returns (par: int)
      modifies this
      requires Valid() && n in Ids(shape) && KeyAt(key, n) == k
      ensures Valid() && balance == old(balance)
      ensures shape == RemoveSpec(old(key), old(shape), k).shape && key == RemoveSpec(old(key), old(shape), k).key
      ensures Contents() == Filter(old(Contents()), [k] + Keys(old(key), RemoveSpec(old(key), old(shape), k).lost))
      ensures k !in Contents()
    {
      ghost var key0, bal0, L0, R0, P0, root0, shape0 := key, balance, left, right, parent, root, shape;
      ghost var c, sub := Focus(shape, n).0, Focus(shape, n).1;
      RemoveAt(key, left, right, parent, root, c, sub, k);
      var v;
      if left[n] == NIL || right[n] == NIL {
        if left[n] == NIL {
          v := right[n];
        } else {
          v := left[n];
        }
        ghost var nt := if left[n] == NIL then sub.right else sub.left;
        par := Unlink(n, v, c, sub, nt);
      } else {
        ghost var cl, tv;
        v, cl, tv := DescendRight(left[n], sub.left, n);
        ghost var cx := Above(cl, InL(n, sub.right, c));
        PlugAbove(cl, InL(n, sub.right, c), tv);
        PlugAbove(cl, InL(n, sub.right, c), Nil);
        key := key[n := key[v]];
        var m := v;
        v := right[v];
        par := Unlink(m, v, cx, tv, tv.right);
      }
      assert shape == RemoveSpec(key0, shape0, k).shape && key == RemoveSpec(key0, shape0, k).key;
      RemoveOk(key0, bal0, L0, R0, P0, root0, shape0, k, left, right, parent, root);
    }

    /** The predecessor loop of `remove`: from `v0`, the root of `t`, follow
        right children to the rightmost node of `t`. */
    method DescendRight(v0: int, ghost t: Tree, ghost par: int) returns (v: int, ghost cl: Ctx, ghost tv: Tree)
      requires Linked(left, right, parent, t, v0, par) && t.Node?
      ensures Plug(cl, tv) == t && tv.Node? && v == tv.id && tv.right.Nil? && 0 <= v < |right| && right[v] == NIL
      ensures v == Rightmost(t) && tv.left == RightmostLeft(t) && DropRightmost(t) == Plug(cl, Nil)
    {
      v := v0;
      cl, tv := Top, t;
      ghost var tp := par;
      while right[v] != NIL
        invariant Plug(cl, tv) == t && tv.Node? && v == tv.id && Linked(left, right, parent, tv, v, tp)
        invariant Rightmost(tv) == Rightmost(t) && RightmostLeft(tv) == RightmostLeft(t)
        invariant DropRightmost(t) == Plug(cl, DropRightmost(tv))
        decreases tv
      {
        cl, tv, tp := InR(tv.id, tv.left, cl), tv.right, tv.id;
        v := right[v];
      }
    }

    /** The unlinking step of `remove`: node `n`, the root of the subtree
        `t` in slot `c`, is replaced there by its child subtree `nt` whose
        root is `v`: the parent's child field (or the tree's root) is
        redirected to `v`, and `v`'s parent field to the old parent. */
    method Unlink(n: int, v: int, ghost c: Ctx, ghost t: Tree, ghost nt: Tree) returns (par: int)
      modifies this
      requires |balance| == |key| && |left| == |key| && |right| == |key| && |parent| == |key|
      requires Linked(left, right, parent, Plug(c, t), root, NIL) && Distinct(Plug(c, t))
      requires t.Node? && t.id == n && (nt == t.left || nt == t.right) && v == Id(nt)
      ensures Linked(left, right, parent, Plug(c, nt), root, NIL) && shape == Plug(c, nt)
      ensures par == ParentId(c) && root == if par == NIL then v else old(root)
      ensures key == old(key) && balance == old(balance)
      ensures |left| == |key| && |right| == |key| && |parent| == |key|
    {
      SpliceReady(left, right, parent, c, t, nt, root);
      ghost var L0, R0, P0, root0 := left, right, parent, root;
      par := parent[n];
      if par == NIL {
        root := v;
      } else {
        if right[par] == n {
          right := right[par := v];
        } else {
          left := left[par := v];
        }
      }
      if v != NIL {
        parent := parent[v := par];
      }
      shape := Plug(c, nt);
      UnlinkRelinked(L0, R0, P0, c, t, nt, root0, left, right, parent, root);
    }

    /** `rebalance_after_insertion`: the walk from `node` towards the root
        after the subtree at `node` grew by one level.  Each step adjusts
        the parent's balance; the walk stops at a parent that became
        balanced or at the root, and otherwise either moves up or performs
        one single or double rotation at the grandparent and stops.  When
        the walk starts in the situation an insertion leaves behind
        (`Grown`), the tree is an AVL tree afterwards; in any case the same
        keys are in the same order and the shape changed by the rotations
        recorded in `fix` only. */
    method Rebalance(node: int, ghost c: Ctx, ghost sub: Tree) returns (ghost fix: Fix)
      modifies this
      requires Valid() && shape == Plug(c, sub) && node == Id(sub)
      ensures Valid() && key == old(key) && Contents() == old(Contents())
      ensures shape == ApplyFix(old(shape), fix)
      ensures old(Grown(balance, c, sub)) ==> IsAVL()
      ensures c.Top? || sub.Nil? ==> unchanged(this) && fix == NoRotation
    {
      fix := NoRotation;
      if node == NIL {
        return;
      }
      ghost var grown := Grown(balance, c, sub);
      LinkedPlug(left, right, parent, c, sub, root);
      var n := node;
      var p := parent[n];
      ghost var cc, s := c, sub;
      while p != NIL
        invariant Valid() && key == old(key) && shape == old(shape)
        invariant left == old(left) && right == old(right) && parent == old(parent) && root == old(root)
        invariant shape == Plug(cc, s) && s.Node? && s.id == n && p == ParentId(cc)
        invariant grown ==> Grown(balance, cc, s)
        invariant c.Top? ==> cc.Top? && unchanged(this)
        invariant fix == NoRotation
        decreases Depth(cc)
      {
        assert !c.Top?;
        var stop, gp;
        stop, gp, fix := Step(n, p, cc, s, grown);
        if stop {
          break;
        }
        s := if cc.InL? then Node(s, p, cc.sib) else Node(cc.sib, p, s);
        cc := cc.up;
        n := p;
        p := gp;
      }
    }

    /** One pass of the walk's loop: the parent `p` of the grown subtree at
        `n` takes the height increase into its balance field; the walk stops
        there when `p` is the root or became balanced, or after a rotation at
        the grandparent, and otherwise returns the grandparent `gp` for the
        walk to move to, with the subtree at `p` now the one that grew. */
    method Step(n: int, p: int, ghost cc: Ctx, ghost s: Tree, ghost grown: bool)
      returns (stop: bool, gp: int, ghost fix: Fix)
      modifies this
      requires Valid() && shape == Plug(cc, s) && s.Node? && s.id == n && !cc.Top? && cc.pid == p
      requires grown ==> Grown(balance, cc, s)
      ensures Valid() && key == old(key) && Contents() == old(Contents())
      ensures shape == ApplyFix(old(shape), fix)
      ensures stop && grown ==> IsAVL()
      ensures !stop ==> fix == NoRotation && shape == old(shape) && left == old(left) && right == old(right) &&
                        parent == old(parent) && root == old(root) && gp == ParentId(cc.up)
      ensures !stop && grown ==> Grown(balance, cc.up, if cc.InL? then Node(s, p, cc.sib) else Node(cc.sib, p, s))
      ensures 0 <= p < |old(balance)| && |balance| == |old(balance)|
      ensures fix == NoRotation ==> balance == old(balance)[p := old(balance[p]) + (if cc.InL? then 1 else -1)]
      ensures (old(parent[p]) == NIL || old(balance[p]) + (if cc.InL? then 1 else -1) == BALANCED) ==>
                stop && fix == NoRotation
    {
      ghost var bal := balance;
      fix := NoRotation;
      LinkedHole(left, right, parent, cc, s, root);
      if left[p] == n {
        balance := balance[p := balance[p] + 1];
      } else {
        balance := balance[p := balance[p] - 1];
      }
      gp := parent[p];
      StepBalance(bal, balance, cc, s);
      if gp == NIL || balance[p] == BALANCED {
        return true, gp, fix;
      }
      stop, fix := RotateAt(n, p, gp, cc, s, bal);
    }

    /** The part of one step of the walk that looks at the grandparent `gp`
        once the parent `p` of the grown subtree at `n` became unbalanced on
        that side: the LL, RL, RR and LR cases set the new balance fields and
        rotate, and otherwise nothing changes and the grandparent has room for
        the walk to move up.  `bal` holds the balance fields before `p`'s was
        adjusted. */
    method RotateAt(n: int, p: int, gp: int, ghost cc: Ctx, ghost s: Tree, ghost bal: seq<int>)
      returns (done: bool, ghost fix: Fix)
      modifies this
      requires Valid() && shape == Plug(cc, s) && s.Node? && s.id == n
      requires !cc.Top? && cc.pid == p && !cc.up.Top? && cc.up.pid == gp
      requires |bal| == |balance| && 0 <= p < |bal| && balance[p] != BALANCED
      requires balance == bal[p := if cc.InL? then bal[p] + 1 else bal[p] - 1]
      ensures Valid() && key == old(key) && Contents() == old(Contents())
      ensures shape == ApplyFix(old(shape), fix)
      ensures done && Grown(bal, cc, s) ==> IsAVL()
      ensures !done ==> unchanged(this) && fix == NoRotation && Room(balance, cc.up)
      ensures 0 <= gp < |old(balance)|
      ensures done <==> old(balance[gp]) == (if cc.up.InL? then LEFT_HEAVY else RIGHT_HEAVY)
      ensures done ==> fix == (if cc.up.InL? then (if cc.InL? then LL(gp) else LR(p, gp))
                               else (if cc.InL? then RL(p, gp) else RR(gp)))
    {
      fix := NoRotation;
      done := false;
      LinkedHole(left, right, parent, cc, s, root);
      if n == left[p] {
        if p == left[gp] {
          if balance[gp] == LEFT_HEAVY {
            CaseLL(p, gp, cc, s, bal);
            fix, done := LL(gp), true;
          }
        } else {
          if balance[gp] == RIGHT_HEAVY {
            CaseRL(n, p, gp, cc, s, bal);
            fix, done := RL(p, gp), true;
          }
        }
      } else {
        if p == right[gp] {
          if balance[gp] == RIGHT_HEAVY {
            CaseRR(p, gp, cc, s, bal);
            fix, done := RR(gp), true;
          }
        } else {
          if balance[gp] == LEFT_HEAVY {
            CaseLR(n, p, gp, cc, s, bal);
            fix, done := LR(p, gp), true;
          }
        }
      }
    }

    /** The LL case: the grown subtree is the left child of `p`, itself the
        left child of a left-heavy `gp`: both become balanced and `gp` is
        rotated right. */
    method CaseLL(p: int, gp: int, ghost cc: Ctx, ghost s: Tree, ghost bal: seq<int>)
      modifies this
      requires Valid() && shape == Plug(cc, s) && s.Node?
      requires cc.InL? && cc.pid == p && cc.up.InL? && cc.up.pid == gp
      requires |bal| == |balance| && 0 <= p < |bal| && 0 <= gp < |bal| && p != gp
      requires balance == bal[p := bal[p] + 1] && balance[p] != BALANCED && balance[gp] == LEFT_HEAVY
      ensures Valid() && key == old(key) && Contents() == old(Contents())
      ensures shape == ApplyFix(old(shape), LL(gp))
      ensures balance == old(balance)[p := BALANCED][gp := BALANCED]
      ensures Grown(bal, cc, s) ==> IsAVL()
    {
      PlugIds(cc, s);
      CaseLLBalance(bal, balance, p, gp, cc, s);
      balance := balance[p := BALANCED][gp := BALANCED];
      var top := RightRotate(gp);
    }

    /** The RR case, the mirror image of the LL case. */
    method CaseRR(p: int, gp: int, ghost cc: Ctx, ghost s: Tree, ghost bal: seq<int>)
      modifies this
      requires Valid() && shape == Plug(cc, s) && s.Node?
      requires cc.InR? && cc.pid == p && cc.up.InR? && cc.up.pid == gp
      requires |bal| == |balance| && 0 <= p < |bal| && 0 <= gp < |bal| && p != gp
      requires balance == bal[p := bal[p] - 1] && balance[p] != BALANCED && balance[gp] == RIGHT_HEAVY
      ensures Valid() && key == old(key) && Contents() == old(Contents())
      ensures shape == ApplyFix(old(shape), RR(gp))
      ensures balance == old(balance)[p := BALANCED][gp := BALANCED]
      ensures Grown(bal, cc, s) ==> IsAVL()
    {
      PlugIds(cc, s);
      CaseRRBalance(bal, balance, p, gp, cc, s);
      balance := balance[p := BALANCED][gp := BALANCED];
      var top := LeftRotate(gp);
    }

    /** The RL case: the grown subtree at `n` is the left child of `p`,
        itself the right child of a right-heavy `gp`.  The new balance fields
        of `p` and `gp` depend on the side `n` leans to, `n` becomes
        balanced, and `p` is rotated right and then `gp` left, which lifts
        `n` above both. */
    method CaseRL(n: int, p: int, gp: int, ghost cc: Ctx, ghost s: Tree, ghost bal: seq<int>)
      modifies this
      requires Valid() && shape == Plug(cc, s) && s.Node? && s.id == n
      requires cc.InL? && cc.pid == p && cc.up.InR? && cc.up.pid == gp
      requires |bal| == |balance| && 0 <= p < |bal| && 0 <= gp < |bal| && 0 <= n < |bal|
      requires balance == bal[p := bal[p] + 1] && balance[p] != BALANCED && balance[gp] == RIGHT_HEAVY
      ensures Valid() && key == old(key) && Contents() == old(Contents())
      ensures shape == ApplyFix(old(shape), RL(p, gp))
      ensures old(balance[n]) == LEFT_HEAVY ==> balance == old(balance)[p := RIGHT_HEAVY][gp := BALANCED][n := BALANCED]
      ensures old(balance[n]) == BALANCED ==> balance == old(balance)[p := BALANCED][gp := BALANCED][n := BALANCED]
      ensures old(balance[n]) == RIGHT_HEAVY ==> balance == old(balance)[p := BALANCED][gp := LEFT_HEAVY][n := BALANCED]
      ensures old(balance[n]) !in {LEFT_HEAVY, BALANCED, RIGHT_HEAVY} ==> balance == old(balance)[n := BALANCED]
      ensures Grown(bal, cc, s) ==> IsAVL()
    {
      PlugIds(cc, s);
      CaseRLBalance(bal, balance, n, p, gp, cc, s);
      if balance[n] == LEFT_HEAVY {
        balance := balance[p := RIGHT_HEAVY][gp := BALANCED];
      } else if balance[n] == BALANCED {
        balance := balance[p := BALANCED][gp := BALANCED];
      } else if balance[n] == RIGHT_HEAVY {
        balance := balance[p := BALANCED][gp := LEFT_HEAVY];
      }
      balance := balance[n := BALANCED];
      ghost var shape1 := shape;
      var top := RightRotate(p);
      RotAtIds(shape1, p);
      top := LeftRotate(gp);
    }

    /** The LR case, the mirror image of the RL case. */
    method CaseLR(n: int, p: int, gp: int, ghost cc: Ctx, ghost s: Tree, ghost bal: seq<int>)
      modifies this
      requires Valid() && shape == Plug(cc, s) && s.Node? && s.id == n
      requires cc.InR? && cc.pid == p && cc.up.InL? && cc.up.pid == gp
      requires |bal| == |balance| && 0 <= p < |bal| && 0 <= gp < |bal| && 0 <= n < |bal|
      requires balance == bal[p := bal[p] - 1] && balance[p] != BALANCED && balance[gp] == LEFT_HEAVY
      ensures Valid() && key == old(key) && Contents() == old(Contents())
      ensures shape == ApplyFix(old(shape), LR(p, gp))
      ensures old(balance[n]) == LEFT_HEAVY ==> balance == old(balance)[p := BALANCED][gp := RIGHT_HEAVY][n := BALANCED]
      ensures old(balance[n]) == BALANCED ==> balance == old(balance)[p := BALANCED][gp := BALANCED][n := BALANCED]
      ensures old(balance[n]) == RIGHT_HEAVY ==> balance == old(balance)[p := LEFT_HEAVY][gp := BALANCED][n := BALANCED]
      ensures old(balance[n]) !in {LEFT_HEAVY, BALANCED, RIGHT_HEAVY} ==> balance == old(balance)[n := BALANCED]
      ensures Grown(bal, cc, s) ==> IsAVL()
    {
      PlugIds(cc, s);
      CaseLRBalance(bal, balance, n, p, gp, cc, s);
      if balance[n] == LEFT_HEAVY {
        balance := balance[p := BALANCED][gp := RIGHT_HEAVY];
      } else if balance[n] == BALANCED {
        balance := balance[p := BALANCED][gp := BALANCED];
      } else if balance[n] == RIGHT_HEAVY {
        balance := balance[p := LEFT_HEAVY][gp := BALANCED];
      }
      balance := balance[n := BALANCED];
      ghost var shape1 := shape;
      var top := LeftRotate(p);
      RotAtIds(shape1, p);
      top := RightRotate(gp);
    }

    /** A rotation without a node or without the needed child leaves the
        shape as it is. */
    lemma {:induction false} RotateNoop(node: int, toLeft: bool)
      requires Valid() && (node == NIL || node in Ids(shape))
      requires toLeft ==> node == NIL || right[node] == NIL
      requires !toLeft ==> node == NIL || left[node] == NIL
      ensures toLeft ==> RotLeftAt(shape, node) == shape
      ensures !toLeft ==> RotRightAt(shape, node) == shape
    {
      if node == NIL {
        RotLeftAtAbsent(shape, node);
        RotRightAtAbsent(shape, node);
      } else {
        var f := Focus(shape, node);
        LinkedPlug(left, right, parent, f.0, f.1, root);
        DistinctPlug(f.0, f.1);
        RotLeftAtPlug(f.0, f.1);
        RotRightAtPlug(f.0, f.1);
      }
    }
  }

  /** The arena's fields, one sequence each, lay out the tree `t` from
      `root` with consistent parent fields, no node occurs twice, every
      node is a slot of the arena, and the in-order keys strictly increase. */
  ghost predicate ArenaOk(key: seq<int>, bal: seq<int>, L: seq<int>, R: seq<int>, P: seq<int>, root: int, t: Tree) {
    |bal| == |key| && |L| == |key| && |R| == |key| && |P| == |key| &&
    Linked(L, R, P, t, root, NIL) && Distinct(t) && InArena(|key|, t) && Ordered(key, t)
  }

  /** The pointer facts `left_rotate` relies on: `b`, its left child and
      the parent `p` of `n` are distinct slots of the arena, each either
      NIL or a node. */
  lemma {:induction false} RotLeftReady(L: seq<int>, R: seq<int>, P: seq<int>, t: Tree, root: int, n: int)
    requires Linked(L, R, P, t, root, NIL) && Distinct(t) && n in Ids(t)
    requires 0 <= n < |R| && R[n] != NIL
    ensures 0 <= n < |L| && 0 <= n < |P|
    ensures var b := R[n]; 0 <= b < |L| && b < |R| && b < |P| && b != n
    ensures var b, p := R[n], P[n]; p == NIL || (0 <= p < |L| && p < |R| && p != n && p != b)
    ensures var b := R[n]; L[b] == NIL || (0 <= L[b] < |P| && L[b] != n && L[b] != b)
  {
    var f := Focus(t, n);
    LinkedPlug(L, R, P, f.0, f.1, root);
    DistinctPlug(f.0, f.1);
    LinkedCtxBounds(L, R, P, f.0, n, root);
    var sub := f.1;
    assert Linked(L, R, P, sub.right, R[n], n);
    LinkedId(L, R, P, sub, n, ParentId(f.0));
    assert Ids(sub) == Ids(sub.left) + {n} + (Ids(sub.right.left) + {sub.right.id} + Ids(sub.right.right));
    if f.0 != Top {
      assert P[n] in CtxIds(f.0);
    }
    LinkedId(L, R, P, sub.right.left, L[R[n]], R[n]);
  }

  lemma {:induction false} RotRightReady(L: seq<int>, R: seq<int>, P: seq<int>, t: Tree, root: int, n: int)
    requires Linked(L, R, P, t, root, NIL) && Distinct(t) && n in Ids(t)
    requires 0 <= n < |L| && L[n] != NIL
    ensures 0 <= n < |R| && 0 <= n < |P|
    ensures var b := L[n]; 0 <= b < |L| && b < |R| && b < |P| && b != n
    ensures var b, p := L[n], P[n]; p == NIL || (0 <= p < |L| && p < |R| && p != n && p != b)
    ensures var b := L[n]; R[b] == NIL || (0 <= R[b] < |P| && R[b] != n && R[b] != b)
  {
    var f := Focus(t, n);
    LinkedPlug(L, R, P, f.0, f.1, root);
    DistinctPlug(f.0, f.1);
    LinkedCtxBounds(L, R, P, f.0, n, root);
    var sub := f.1;
    assert Linked(L, R, P, sub.left, L[n], n);
    LinkedId(L, R, P, sub, n, ParentId(f.0));
    assert Ids(sub) == (Ids(sub.left.left) + {sub.left.id} + Ids(sub.left.right)) + {n} + Ids(sub.right);
    if f.0 != Top {
      assert P[n] in CtxIds(f.0);
    }
    LinkedId(L, R, P, sub.left.right, R[L[n]], L[n]);
  }

  /** The links after `insert` hangs a new leaf holding `k` in the slot at
      the end of its descent lay out the tree with that leaf. */
  lemma {:induction false} AttachLeaf(key: seq<int>, bal: seq<int>, L: seq<int>, R: seq<int>, P: seq<int>, root: int,
                                      c: Ctx, k: int, L': seq<int>, R': seq<int>, P': seq<int>, root': int)
    requires ArenaOk(key, bal, L, R, P, root, Plug(c, Nil))
    requires AllBelow(Before(key, c), k) && AllAbove(After(key, c), k)
    requires ParentId(c) == NIL || 0 <= ParentId(c) < |key|
    requires P' == (P + [NIL])[|key| := ParentId(c)]
    requires root' == if ParentId(c) == NIL then |key| else root
    requires L' == if ParentId(c) != NIL && k < KeyAt(key, ParentId(c)) then (L + [NIL])[ParentId(c) := |key|] else L + [NIL]
    requires R' == if ParentId(c) != NIL && !(k < KeyAt(key, ParentId(c))) then (R + [NIL])[ParentId(c) := |key|] else R + [NIL]
    ensures ArenaOk(key + [k], bal + [BALANCED], L', R', P', root', Plug(c, Node(Nil, |key|, Nil)))
    ensures Keys(key + [k], Plug(c, Node(Nil, |key|, Nil))) == InsertSorted(Keys(key, Plug(c, Nil)), k)
    ensures BalOk(bal, Plug(c, Nil)) ==> Grown(bal + [BALANCED], c, Node(Nil, |key|, Nil))
  {
    var n, leaf := |key|, Node(Nil, |key|, Nil);
    assert n !in CtxIds(c) && Distinct(Plug(c, leaf)) && InArena(n + 1, Plug(c, leaf)) by {
      DistinctPlug(c, Nil);
      PlugIds(c, Nil);
      PlugIds(c, leaf);
      DistinctPlug(c, leaf);
    }
    assert Linked(L', R', P', Plug(c, leaf), root', NIL) by {
      if !c.Top? {
        HoleSide(key, c, k);
      }
      LeafLinks(L, R, P, c, root, n, L', R', P', root');
    }
    InsertAtHole(key, c, k);
    assert BalOk(bal, Plug(c, Nil)) ==> Grown(bal + [BALANCED], c, leaf) by {
      BalFrame(bal, bal + [BALANCED], Plug(c, Nil));
      if BalOk(bal, Plug(c, Nil)) {
        GrownLeaf(bal + [BALANCED], c, n);
      }
    }
  }

  /** The link part of `AttachLeaf`, with the side of the parent given. */
  lemma {:induction false} LeafLinks(L: seq<int>, R: seq<int>, P: seq<int>, c: Ctx, root: int, n: int,
                                     L': seq<int>, R': seq<int>, P': seq<int>, root': int)
    requires Linked(L, R, P, Plug(c, Nil), root, NIL) && Distinct(Plug(c, Nil))
    requires |R| == |L| && |P| == |L| && n == |L| && n !in CtxIds(c)
    requires ParentId(c) == NIL || 0 <= ParentId(c) < n
    requires P' == (P + [NIL])[n := ParentId(c)]
    requires root' == if ParentId(c) == NIL then n else root
    requires L' == if c.InL? then (L + [NIL])[ParentId(c) := n] else L + [NIL]
    requires R' == if c.InR? then (R + [NIL])[ParentId(c) := n] else R + [NIL]
    ensures Linked(L', R', P', Plug(c, Node(Nil, n, Nil)), root', NIL)
  {
    LinkedPlug(L, R, P, c, Nil, root);
    DistinctPlug(c, Nil);
    LinkedCtxRepoint(L, R, P, L', R', P', c, NIL, n, root, root');
    assert Linked(L', R', P', Node(Nil, n, Nil), n, ParentId(c));
    LinkedPlug(L', R', P', c, Node(Nil, n, Nil), root');
  }

  /** What `remove` reads around the node `t.id` it unlinks. */
  lemma {:induction false} SpliceReady(L: seq<int>, R: seq<int>, P: seq<int>, c: Ctx, t: Tree, nt: Tree, root: int)
    requires Linked(L, R, P, Plug(c, t), root, NIL) && Distinct(Plug(c, t))
    requires t.Node? && (nt == t.left || nt == t.right) && |R| == |L| && |P| == |L|
    ensures 0 <= t.id < |L| && P[t.id] == ParentId(c)
    ensures ParentId(c) == NIL || 0 <= ParentId(c) < |L|
    ensures Id(nt) == NIL || 0 <= Id(nt) < |L|
  {
    LinkedPlug(L, R, P, c, t, root);
    LinkedCtxBounds(L, R, P, c, t.id, root);
    assert !c.Top? ==> c.pid in CtxIds(c);
    if nt.Node? {
      LinkedId(L, R, P, nt, nt.id, t.id);
      assert nt.id in Ids(nt);
    }
  }

  /** The links after `remove` unlinks `t.id` lay out the tree with `nt` in
      its place. */
  lemma {:induction false} UnlinkRelinked(L: seq<int>, R: seq<int>, P: seq<int>, c: Ctx, t: Tree, nt: Tree, root: int,
                                          L': seq<int>, R': seq<int>, P': seq<int>, root': int)
    requires Linked(L, R, P, Plug(c, t), root, NIL) && Distinct(Plug(c, t))
    requires t.Node? && (nt == t.left || nt == t.right) && |R| == |L| && |P| == |L|
    requires ParentId(c) == NIL || 0 <= ParentId(c) < |L|
    requires Id(nt) == NIL || 0 <= Id(nt) < |L|
    requires root' == if ParentId(c) == NIL then Id(nt) else root
    requires L' == if ParentId(c) != NIL && R[ParentId(c)] != t.id then L[ParentId(c) := Id(nt)] else L
    requires R' == if ParentId(c) != NIL && R[ParentId(c)] == t.id then R[ParentId(c) := Id(nt)] else R
    requires P' == if Id(nt) != NIL then P[Id(nt) := ParentId(c)] else P
    ensures Linked(L', R', P', Plug(c, nt), root', NIL)
  {
    LinkedSplice(L, R, P, L', R', P', c, t, nt, root, root');
  }

  /** A key that is absent leaves the removal with nothing to do. */
  lemma {:induction false} RemoveAbsent(key: seq<int>, t: Tree, k: int)
    requires k !in Keys(key, t)
    ensures RemoveSpec(key, t, k) == Removal(t, key, Nil)
    ensures Filter(Keys(key, t), [k] + Keys(key, Nil)) == Keys(key, t)
    decreases t
  {
    match t
    case Nil =>
    case Node(l, i, r) =>
      assert Keys(key, t) == Keys(key, l) + [KeyAt(key, i)] + Keys(key, r);
      RemoveAbsent(key, l, k);
      RemoveAbsent(key, r, k);
      assert [k] + Keys(key, Nil) == [k];
      FilterAppend(Keys(key, l) + [KeyAt(key, i)], Keys(key, r), [k]);
      FilterAppend(Keys(key, l), [KeyAt(key, i)], [k]);
      FilterKeep([KeyAt(key, i)], [k]);
  }

  /** After `remove` the arena lays out `RemoveSpec`'s shape with its keys,
      which are the old ones without `k` and without the detached subtree's,
      still in increasing order. */
  lemma {:induction false} RemoveOk(key: seq<int>, bal: seq<int>, L: seq<int>, R: seq<int>, P: seq<int>, root: int, t: Tree, k: int,
                                    L': seq<int>, R': seq<int>, P': seq<int>, root': int)
    requires ArenaOk(key, bal, L, R, P, root, t)
    requires |L'| == |key| && |R'| == |key| && |P'| == |key|
    requires Linked(L', R', P', RemoveSpec(key, t, k).shape, root', NIL)
    ensures var x := RemoveSpec(key, t, k);
            ArenaOk(x.key, bal, L', R', P', root', x.shape) &&
            Keys(x.key, x.shape) == Filter(Keys(key, t), [k] + Keys(key, x.lost)) &&
            k !in Keys(x.key, x.shape)
  {
    var x := RemoveSpec(key, t, k);
    RemoveSpecFrame(key, t, k);
    RemoveSpecKeys(key, t, k);
    FilterSorted(Keys(key, t), [k] + Keys(key, x.lost));
    FilterMembers(Keys(key, t), [k] + Keys(key, x.lost), k);
  }

  /** At the node `sub.id` holding `k`: the removal is the excision there,
      and the links and keys `remove` reads have the values the shape says. */
  lemma {:induction false} RemoveAt(key: seq<int>, L: seq<int>, R: seq<int>, P: seq<int>, root: int, c: Ctx, sub: Tree, k: int)
    requires Linked(L, R, P, Plug(c, sub), root, NIL) && Ordered(key, Plug(c, sub))
    requires sub.Node? && KeyAt(key, sub.id) == k && |R| == |L| && |P| == |L|
    ensures RemoveSpec(key, Plug(c, sub), k) == PlugRemoval(c, Excise(key, sub))
    ensures 0 <= sub.id < |L| && L[sub.id] == Id(sub.left) && R[sub.id] == Id(sub.right)
    ensures Linked(L, R, P, sub.left, L[sub.id], sub.id)
  {
    LinkedPlug(L, R, P, c, sub, root);
    assert Keys(key, sub) == Keys(key, sub.left) + [k] + Keys(key, sub.right);
    RemoveSpecPlug(key, c, sub, k);
    LinkedId(L, R, P, sub.left, L[sub.id], sub.id);
    LinkedId(L, R, P, sub.right, R[sub.id], sub.id);
  }

  lemma {:induction false} RotLeftRelinked(key: seq<int>, bal: seq<int>, L: seq<int>, R: seq<int>, P: seq<int>, t: Tree, root: int, n: int,
                                           L': seq<int>, R': seq<int>, P': seq<int>, root': int)
    requires ArenaOk(key, bal, L, R, P, root, t) && n in Ids(t)
    requires 0 <= n < |L| && R[n] != NIL
    requires var b := R[n]; 0 <= b < |L| && (P[n] == NIL || 0 <= P[n] < |L|)
    requires var b, p := R[n], P[n];
             var P1 := P[b := p][n := b];
             P' == if L[b] != NIL && 0 <= L[b] < |L| then P1[L[b] := n] else P1
    requires var b, p := R[n], P[n];
             var L1 := if p != NIL && R[p] != n then L[p := b] else L;
             var R1 := if p != NIL && R[p] == n then R[p := b] else R;
             R' == R1[n := L1[b]] && L' == L1[b := n]
    requires root' == if root == n then R[n] else root
    ensures ArenaOk(key, bal, L', R', P', root', RotLeftAt(t, n))
  {
    var f := Focus(t, n);
    var cx, sub := f.0, f.1;
    LinkedPlug(L, R, P, cx, sub, root);
    DistinctPlug(cx, sub);
    assert Linked(L, R, P, sub.right, R[n], n);
    assert Linked(L, R, P, sub.right.left, L[R[n]], R[n]);
    LinkedId(L, R, P, sub.right.left, L[R[n]], R[n]);
    LinkedCtxBounds(L, R, P, cx, n, root);
    RotLeftPointwise(L, R, P, cx, sub, L', R', P');
    LinkedRotL(L, R, P, L', R', P', cx, sub.left, n, sub.right.left, sub.right.id, sub.right.right, root);
    RotLeftAtPlug(cx, sub);
    RotLIds(sub);
    DistinctPlug(cx, RotL(sub));
    PlugIds(cx, sub);
    PlugIds(cx, RotL(sub));
    KeysRotAt(key, t, n);
  }

  lemma {:induction false} RotLeftPointwise(L: seq<int>, R: seq<int>, P: seq<int>, cx: Ctx, sub: Tree,
                                            L': seq<int>, R': seq<int>, P': seq<int>)
    requires sub.Node? && sub.right.Node? && Distinct(sub) && DistinctCtx(cx) && Ids(sub) !! CtxIds(cx)
    requires |R| == |L| && |P| == |L|
    requires var n, b := sub.id, sub.right.id; 0 <= n < |L| && 0 <= b < |L| && R[n] == b && P[n] == ParentId(cx)
    requires L[sub.right.id] == Id(sub.right.left)
    requires ParentId(cx) == NIL || 0 <= ParentId(cx) < |L|
    requires forall j :: j in CtxIds(cx) ==> 0 <= j
    requires var n, b, p := sub.id, sub.right.id, ParentId(cx);
             var P1 := P[b := p][n := b];
             P' == if L[b] != NIL && 0 <= L[b] < |L| then P1[L[b] := n] else P1
    requires var n, b, p := sub.id, sub.right.id, ParentId(cx);
             var L1 := if p != NIL && R[p] != n then L[p := b] else L;
             var R1 := if p != NIL && R[p] == n then R[p := b] else R;
             R' == R1[n := L1[b]] && L' == L1[b := n]
    ensures |L'| == |L| && |R'| == |R| && |P'| == |P|
    ensures var n, b, al := sub.id, sub.right.id, sub.right.left;
            forall j :: 0 <= j < |P| ==>
              P'[j] == if j == b then ParentId(cx) else if j == n then b else if j == Id(al) then n else P[j]
    ensures var n, b := sub.id, sub.right.id;
            forall j :: 0 <= j < |L| ==>
              L'[j] == if j == b then n else if j == ParentId(cx) && R[j] != n then b else L[j]
    ensures var n, b, al := sub.id, sub.right.id, sub.right.left;
            forall j :: 0 <= j < |R| ==>
              R'[j] == if j == n then Id(al) else if j == ParentId(cx) && R[j] == n then b else R[j]
  {
    var n, b, al := sub.id, sub.right.id, sub.right.left;
    assert Ids(sub) == Ids(sub.left) + {n} + (Ids(al) + {b} + Ids(sub.right.right));
    assert cx != Top ==> ParentId(cx) in CtxIds(cx);
    if al.Node? {
      assert al.id in Ids(al);
    }
  }

  /** The links after `right_rotate` around `n` lay out the rotated shape. */
  lemma {:induction false} RotRightRelinked(key: seq<int>, bal: seq<int>, L: seq<int>, R: seq<int>, P: seq<int>, t: Tree, root: int, n: int,
                                            L': seq<int>, R': seq<int>, P': seq<int>, root': int)
    requires ArenaOk(key, bal, L, R, P, root, t) && n in Ids(t)
    requires 0 <= n < |L| && L[n] != NIL
    requires var b := L[n]; 0 <= b < |L| && (P[n] == NIL || 0 <= P[n] < |L|)
    requires var b, p := L[n], P[n];
             var P1 := P[b := p][n := b];
             P' == if R[b] != NIL && 0 <= R[b] < |L| then P1[R[b] := n] else P1
    requires var b, p := L[n], P[n];
             var L1 := if p != NIL && R[p] != n then L[p := b] else L;
             var R1 := if p != NIL && R[p] == n then R[p := b] else R;
             L' == L1[n := R1[b]] && R' == R1[b := n]
    requires root' == if root == n then L[n] else root
    ensures ArenaOk(key, bal, L', R', P', root', RotRightAt(t, n))
  {
    var f := Focus(t, n);
    var cx, sub := f.0, f.1;
    LinkedPlug(L, R, P, cx, sub, root);
    DistinctPlug(cx, sub);
    assert Linked(L, R, P, sub.left, L[n], n);
    assert Linked(L, R, P, sub.left.right, R[L[n]], L[n]);
    LinkedId(L, R, P, sub.left.right, R[L[n]], L[n]);
    LinkedCtxBounds(L, R, P, cx, n, root);
    RotRightPointwise(L, R, P, cx, sub, L', R', P');
    LinkedRotR(L, R, P, L', R', P', cx, sub.left.left, sub.left.id, sub.left.right, n, sub.right, root);
    RotRightAtPlug(cx, sub);
    RotRIds(sub);
    DistinctPlug(cx, RotR(sub));
    PlugIds(cx, sub);
    PlugIds(cx, RotR(sub));
    KeysRotAt(key, t, n);
  }

  lemma {:induction false} RotRightPointwise(L: seq<int>, R: seq<int>, P: seq<int>, cx: Ctx, sub: Tree,
                                             L': seq<int>, R': seq<int>, P': seq<int>)
    requires sub.Node? && sub.left.Node? && Distinct(sub) && DistinctCtx(cx) && Ids(sub) !! CtxIds(cx)
    requires |R| == |L| && |P| == |L|
    requires var n, b := sub.id, sub.left.id; 0 <= n < |L| && 0 <= b < |L| && L[n] == b && P[n] == ParentId(cx)
    requires R[sub.left.id] == Id(sub.left.right)
    requires ParentId(cx) == NIL || 0 <= ParentId(cx) < |L|
    requires forall j :: j in CtxIds(cx) ==> 0 <= j
    requires var n, b, p := sub.id, sub.left.id, ParentId(cx);
             var P1 := P[b := p][n := b];
             P' == if R[b] != NIL && 0 <= R[b] < |L| then P1[R[b] := n] else P1
    requires var n, b, p := sub.id, sub.left.id, ParentId(cx);
             var L1 := if p != NIL && R[p] != n then L[p := b] else L;
             var R1 := if p != NIL && R[p] == n then R[p := b] else R;
             L' == L1[n := R1[b]] && R' == R1[b := n]
    ensures |L'| == |L| && |R'| == |R| && |P'| == |P|
    ensures var n, b, bl := sub.id, sub.left.id, sub.left.right;
            forall j :: 0 <= j < |P| ==>
              P'[j] == if j == b then ParentId(cx) else if j == n then b else if j == Id(bl) then n else P[j]
    ensures var n, b, bl := sub.id, sub.left.id, sub.left.right;
            forall j :: 0 <= j < |L| ==>
              L'[j] == if j == n then Id(bl) else if j == ParentId(cx) && R[j] != n then b else L[j]
    ensures var n, b := sub.id, sub.left.id;
            forall j :: 0 <= j < |R| ==>
              R'[j] == if j == b then n else if j == ParentId(cx) && R[j] == n then b else R[j]
  {
    var n, b, bl := sub.id, sub.left.id, sub.left.right;
    assert Ids(sub) == (Ids(sub.left.left) + {b} + Ids(bl)) + {n} + Ids(sub.right);
    assert cx != Top ==> ParentId(cx) in CtxIds(cx);
    if bl.Node? {
      assert bl.id in Ids(bl);
    }
  }
}

/** A worked example of `remove` as written, on a reachable AVL tree. */
module RemoveExample {
  import opened Shape
  import opened Order
  import opened Balance
  import opened AVL

  /** Inserting 4, 2, 5, 1 gives the tree 4(2(1), 5): slot 0 holds 4, slot 1
      holds 2, slot 2 holds 5 and slot 3 holds 1. */
  const ExampleKey: seq<int> := [4, 2, 5, 1]
  const ExampleBal: seq<int> := [1, 1, 0, 0]
  const ExampleShape: Tree := Node(Node(Node(Nil, 3, Nil), 1, Nil), 0, Node(Nil, 2, Nil))

  /** The arena after inserting 4, 2, 5, 1 is a well-formed AVL tree with
      the keys 1, 2, 4, 5. */
  lemma {:induction false} ExampleTreeWellFormed()
    ensures ArenaOk(ExampleKey, ExampleBal, [1, 3, NIL, NIL], [2, NIL, NIL, NIL], [NIL, 0, 0, 1], 0, ExampleShape)
    ensures BalOk(ExampleBal, ExampleShape)
    ensures Keys(ExampleKey, ExampleShape) == [1, 2, 4, 5]
  {
    assert Keys(ExampleKey, ExampleShape) == [1, 2] + [4] + [5];
    assert Sorted([1, 2, 4, 5]);
  }

  /** Removing 4 copies the predecessor key 2 into the root and splices the
      predecessor out by its right child, which is empty: the key 1 in the
      predecessor's left subtree disappears with it. */
  lemma {:induction false} RemoveDropsPredecessorChild()
    ensures var x := RemoveSpec(ExampleKey, ExampleShape, 4);
            Keys(x.key, x.shape) == [2, 5] && Keys(ExampleKey, x.lost) == [1]
  {
    var leaf1 := Node(Nil, 3, Nil);
    var l := Node(leaf1, 1, Nil);
    var x := RemoveSpec(ExampleKey, ExampleShape, 4);
    assert x == Excise(ExampleKey, ExampleShape);
    assert DropRightmost(l) == Nil && Rightmost(l) == 1 && RightmostLeft(l) == leaf1;
    assert x.key == [2, 2, 5, 1];
    assert x.shape == Node(Nil, 0, Node(Nil, 2, Nil));
  }

}

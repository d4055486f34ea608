/** The trees of node labels that `inorder_sequence` and
    `preorder_sequence` read off an AVL tree, and what those labels say
    about its keys and balance fields. */
module Labels {
  import opened Shape
  import opened Order
  import opened Balance
  import opened Describe
  import opened Rebuild

  /** The tree `t` with every node replaced by its `to_string` label. */
  function LabelTree(key: seq<int>, bal: seq<int>, t: Tree): (lt: BTree<string>)
    ensures BSize(lt) == Size(t)
  {
    match t
    case Nil => Leaf
    case Node(l, i, r) => BNode(LabelTree(key, bal, l), NodeLabel(KeyAt(key, i), BalAt(bal, i)), LabelTree(key, bal, r))
  }

  /** Read back position by position, the in-order labels are the keys in
      symmetric order. */
  lemma {:induction false} InorderLabelKeys(key: seq<int>, bal: seq<int>, t: Tree)
    ensures |Inorder(LabelTree(key, bal, t))| == |Keys(key, t)|
    ensures forall i :: 0 <= i < |Keys(key, t)| ==> LabelKey(Inorder(LabelTree(key, bal, t))[i]) == Keys(key, t)[i]
  {
    match t
    case Nil =>
    case Node(l, n, r) =>
      InorderLabelKeys(key, bal, l);
      InorderLabelKeys(key, bal, r);
      LabelRoundTrip(KeyAt(key, n), BalAt(bal, n));
      var m := NodeLabel(KeyAt(key, n), BalAt(bal, n));
      assert Inorder(LabelTree(key, bal, t)) == Inorder(LabelTree(key, bal, l)) + [m] + Inorder(LabelTree(key, bal, r));
      assert Keys(key, t) == Keys(key, l) + [KeyAt(key, n)] + Keys(key, r);
      KeysJoin(Inorder(LabelTree(key, bal, l)), m, Inorder(LabelTree(key, bal, r)),
               Keys(key, l), KeyAt(key, n), Keys(key, r));
  }

  /** Labels that read back as keys position by position still do so after
      joining left part, node and right part. */
  lemma {:induction false} KeysJoin(sl: seq<string>, m: string, sr: seq<string>, kl: seq<int>, k: int, kr: seq<int>)
    requires |sl| == |kl| && forall i :: 0 <= i < |sl| ==> LabelKey(sl[i]) == kl[i]
    requires |sr| == |kr| && forall i :: 0 <= i < |sr| ==> LabelKey(sr[i]) == kr[i]
    requires LabelKey(m) == k
    ensures |sl + [m] + sr| == |kl + [k] + kr|
    ensures forall i :: 0 <= i < |kl + [k] + kr| ==> LabelKey((sl + [m] + sr)[i]) == (kl + [k] + kr)[i]
  {
    var s, ks := sl + [m] + sr, kl + [k] + kr;
    forall i | 0 <= i < |ks|
      ensures LabelKey(s[i]) == ks[i]
    {
      if i < |sl| {
        assert s[i] == sl[i] && ks[i] == kl[i];
      } else if i > |sl| {
        assert s[i] == sr[i - |sl| - 1] && ks[i] == kr[i - |sl| - 1];
      }
    }
  }

  /** On an ordered tree no two nodes get the same label. */
  lemma {:induction false} InorderLabelsDistinct(key: seq<int>, bal: seq<int>, t: Tree)
    requires Ordered(key, t)
    ensures NoDup(Inorder(LabelTree(key, bal, t)))
  {
    var s := Inorder(LabelTree(key, bal, t));
    var ks := Keys(key, t);
    InorderLabelKeys(key, bal, t);
    forall i, j | 0 <= i < j < |s|
      ensures s[i] != s[j]
    {
      assert LabelKey(s[i]) == ks[i] && LabelKey(s[j]) == ks[j];
    }
  }

  /** On an AVL tree every label shows a balance of RIGHT_HEAVY, BALANCED
      or LEFT_HEAVY. */
  lemma {:induction false} BalancedLabels(key: seq<int>, bal: seq<int>, t: Tree)
    requires BalOk(bal, t)
    ensures forall s :: s in Inorder(LabelTree(key, bal, t)) ==> RIGHT_HEAVY <= LabelBalance(s) <= LEFT_HEAVY
  {
    match t
    case Nil =>
    case Node(l, n, r) =>
      BalancedLabels(key, bal, l);
      BalancedLabels(key, bal, r);
      LabelRoundTrip(KeyAt(key, n), BalAt(bal, n));
  }
}

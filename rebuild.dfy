/** `construct_tree`: the binary tree rebuilt from its pre-order and
    in-order label sequences, splitting the in-order sequence at the first
    occurrence of the pre-order sequence's first label. */
module Rebuild {

  /** A plain binary tree of labels (the driver's `BTNode`). */
  datatype BTree<T> = Leaf | BNode(left: BTree<T>, item: T, right: BTree<T>)

  datatype Result<T> = Ok(value: T) | Err(msg: string)

  const InvalidPair := "Invalid pair of in/pre-order sequences"

  function BSize<T>(t: BTree<T>): nat {
    match t
    case Leaf => 0
    case BNode(l, _, r) => BSize(l) + 1 + BSize(r)
  }

  function Preorder<T>(t: BTree<T>): (s: seq<T>)
    ensures |s| == BSize(t)
  {
    match t
    case Leaf => []
    case BNode(l, x, r) => [x] + Preorder(l) + Preorder(r)
  }

  function Inorder<T>(t: BTree<T>): (s: seq<T>)
    ensures |s| == BSize(t)
  {
    match t
    case Leaf => []
    case BNode(l, x, r) => Inorder(l) + [x] + Inorder(r)
  }

  /** No label occurs twice. */
  predicate NoDup<T(==)>(s: seq<T>) {
    forall i, j :: 0 <= i < j < |s| ==> s[i] != s[j]
  }

  /** The index of the first `x` in `b`, or `|b|` when there is none. */
  function FirstIndex<T(==)>(b: seq<T>, x: T): (i: nat)
    ensures i <= |b| && (i < |b| ==> b[i] == x)
  {
    if |b| == 0 then 0
    else if b[0] == x then 0
    else 1 + FirstIndex(b[1..], x)
  }

  /** The tree rebuilt from pre-order `a` and in-order `b` of equal length:
      the root is `a[0]`; its first occurrence in `b` splits `b` into the
      in-order sequences of the two subtrees, and their pre-order
      sequences follow `a[0]` in `a`.  A root label missing from `b` is
      the error "Invalid pair of in/pre-order sequences". */
  function Construct<T(==)>(a: seq<T>, b: seq<T>): (r: Result<BTree<T>>)
    requires |a| == |b|
    ensures r.Ok? ==> BSize(r.value) == |a|
    decreases |a|
  {
    if |a| == 0 then Ok(Leaf)
    else
      var i := FirstIndex(b, a[0]);
      if i == |b| then Err(InvalidPair)
      else
        var l := Construct(a[1..i + 1], b[..i]);
        var r := Construct(a[i + 1..], b[i + 1..]);
        if l.Err? || r.Err? then Err(InvalidPair) else Ok(BNode(l.value, a[0], r.value))
  }

  /** `construct_tree(a, aStart, b, bStart, len)`: the tree of the
      pre-order window `a[aStart..aStart+len]` and the in-order window
      `b[bStart..bStart+len]`; the thrown `runtime_error` is the `Err`
      result. */
  method ConstructTree<T(==)>(a: seq<T>, aStart: nat, b: seq<T>, bStart: nat, len: nat) returns (r: Result<BTree<T>>)
    requires aStart + len <= |a| && bStart + len <= |b|
    ensures r == Construct(a[aStart..aStart + len], b[bStart..bStart + len])
    decreases len
  {
    ghost var wa := a[aStart..aStart + len];
    ghost var wb := b[bStart..bStart + len];
    if len == 0 {
      return Ok(Leaf);
    }
    var i := 0;
    while i < len
      invariant 0 <= i <= len
      invariant forall j :: 0 <= j < i ==> wb[j] != wa[0]
    {
      if b[bStart + i] == a[aStart] {
        break;
      }
      i := i + 1;
    }
    FirstIndexIs(wb, wa[0], i);
    if i == len {
      return Err(InvalidPair);
    }
    ConstructStep(wa, wb, i);
    var l := ConstructTree(a, aStart + 1, b, bStart, i);
    Window(a, aStart, len, 1, i + 1);
    Window(b, bStart, len, 0, i);
    assert l == Construct(wa[1..i + 1], wb[..i]);
    if l.Err? {
      return Err(InvalidPair);
    }
    var aNext, bNext, rest := aStart + i + 1, bStart + i + 1, len - i - 1;
    var rt := ConstructTree(a, aNext, b, bNext, rest);
    WindowTail(a, aStart, len, i, aNext, rest);
    WindowTail(b, bStart, len, i, bNext, rest);
    assert rt == Construct(wa[i + 1..], wb[i + 1..]);
    if rt.Err? {
      return Err(InvalidPair);
    }
    return Ok(BNode(l.value, a[aStart], rt.value));
  }

  /** One step of `Construct` where the root label occurs at `i`. */
  lemma {:induction false} ConstructStep<T>(a: seq<T>, b: seq<T>, i: nat)
    requires |a| == |b| && i < |b| && i == FirstIndex(b, a[0])
    ensures Construct(a, b) ==
      if Construct(a[1..i + 1], b[..i]).Err? || Construct(a[i + 1..], b[i + 1..]).Err? then Err(InvalidPair)
      else Ok(BNode(Construct(a[1..i + 1], b[..i]).value, a[0], Construct(a[i + 1..], b[i + 1..]).value))
  {
  }

  lemma {:induction false} WindowTail<T>(s: seq<T>, start: nat, len: nat, i: nat, next: nat, rest: nat)
    requires start + len <= |s| && i < len && next == start + i + 1 && rest == len - i - 1
    ensures s[start..start + len][i + 1..] == s[next..next + rest]
  {
    var u := s[start..start + len][i + 1..];
    var v := s[next..next + rest];
    assert |u| == |v|;
    forall k | 0 <= k < |u|
      ensures u[k] == v[k]
    {
    }
  }

  lemma {:induction false} Window<T>(s: seq<T>, start: nat, len: nat, i: nat, j: nat)
    requires start + len <= |s| && i <= j <= len
    ensures s[start..start + len][i..j] == s[start + i..start + j]
  {
    var u := s[start..start + len][i..j];
    var v := s[start + i..start + j];
    assert |u| == |v|;
    forall k | 0 <= k < |u|
      ensures u[k] == v[k]
    {
    }
  }

  lemma {:induction false} FirstIndexIs<T>(b: seq<T>, x: T, i: nat)
    requires i <= |b| && (i < |b| ==> b[i] == x)
    requires forall j :: 0 <= j < i ==> b[j] != x
    ensures FirstIndex(b, x) == i
  {
    if i > 0 {
      FirstIndexIs(b[1..], x, i - 1);
    }
  }

  /** Whatever `Construct` builds has exactly the given traversals. */
  lemma {:induction false} ConstructSound<T>(a: seq<T>, b: seq<T>)
    requires |a| == |b| && Construct(a, b).Ok?
    ensures Preorder(Construct(a, b).value) == a
    ensures Inorder(Construct(a, b).value) == b
    decreases |a|
  {
    if |a| > 0 {
      var i := FirstIndex(b, a[0]);
      var l := Construct(a[1..i + 1], b[..i]);
      var r := Construct(a[i + 1..], b[i + 1..]);
      var t := Construct(a, b).value;
      assert t == BNode(l.value, a[0], r.value);
      ConstructSound(a[1..i + 1], b[..i]);
      ConstructSound(a[i + 1..], b[i + 1..]);
      SplitPre(a, i);
      SplitIn(b, i);
    }
  }

  lemma {:induction false} SplitPre<T>(a: seq<T>, i: nat)
    requires i < |a|
    ensures a == [a[0]] + a[1..i + 1] + a[i + 1..]
  {
  }

  lemma {:induction false} SplitIn<T>(b: seq<T>, i: nat)
    requires i < |b|
    ensures b == b[..i] + [b[i]] + b[i + 1..]
  {
  }

  /** A tree whose labels are all different is rebuilt from its own
      traversals. */
  lemma {:induction false} ConstructComplete<T>(t: BTree<T>)
    requires NoDup(Inorder(t))
    ensures Construct(Preorder(t), Inorder(t)) == Ok(t)
  {
    if t.BNode? {
      var a := Preorder(t);
      var b := Inorder(t);
      var il := Inorder(t.left);
      var ir := Inorder(t.right);
      var k := |il|;
      assert b == il + [t.item] + ir;
      assert b[k] == t.item;
      assert forall j :: 0 <= j < k ==> b[j] != t.item by {
        forall j | 0 <= j < k
          ensures b[j] != t.item
        {
          assert b[j] == il[j];
        }
      }
      FirstIndexIs(b, a[0], k);
      assert a[1..k + 1] == Preorder(t.left);
      assert a[k + 1..] == Preorder(t.right);
      assert b[..k] == il;
      assert b[k + 1..] == ir;
      NoDupParts(il, t.item, ir);
      ConstructComplete(t.left);
      ConstructComplete(t.right);
    }
  }

  lemma {:induction false} NoDupParts<T>(l: seq<T>, x: T, r: seq<T>)
    requires NoDup(l + [x] + r)
    ensures NoDup(l) && NoDup(r)
  {
    var s := l + [x] + r;
    forall i, j | 0 <= i < j < |r|
      ensures r[i] != r[j]
    {
      assert r[i] == s[|l| + 1 + i] && r[j] == s[|l| + 1 + j];
    }
    forall i, j | 0 <= i < j < |l|
      ensures l[i] != l[j]
    {
      assert l[i] == s[i] && l[j] == s[j];
    }
  }

  /** A pre-order sequence whose first label is missing from the in-order
      one is rejected. */
  lemma {:induction false} ConstructMissingRoot<T>(a: seq<T>, b: seq<T>)
    requires |a| == |b| && |a| > 0 && a[0] !in b
    ensures Construct(a, b) == Err(InvalidPair)
  {
    assert FirstIndex(b, a[0]) == |b|;
  }

  /** The two traversals list the same labels, each as often. */
  lemma {:induction false} TraversalsPermute<T>(t: BTree<T>)
    ensures multiset(Preorder(t)) == multiset(Inorder(t))
  {
    if t.BNode? {
      TraversalsPermute(t.left);
      TraversalsPermute(t.right);
    }
  }
}

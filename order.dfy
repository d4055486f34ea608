/** Keys in symmetric order: the binary-search-tree property, the effect of
    rotations, of leaf insertion and of the predecessor-based removal on the
    in-order key sequence. */
module Order {
  import opened Shape

  /** The key stored in arena slot `i` (0 for a slot outside the arena). */
  function KeyAt(key: seq<int>, i: int): int {
    if 0 <= i < |key| then key[i] else 0
  }

  /** The keys of `t` in order: left subtree, node, right subtree. */
  function Keys(key: seq<int>, t: Tree): seq<int> {
    match t
    case Nil => []
    case Node(l, i, r) => Keys(key, l) + [KeyAt(key, i)] + Keys(key, r)
  }

  predicate Sorted(s: seq<int>) {
    forall i, j :: 0 <= i < j < |s| ==> s[i] < s[j]
  }

  /** The binary-search-tree property: the in-order keys strictly increase,
      so in particular no key occurs twice. */
  ghost predicate Ordered(key: seq<int>, t: Tree) {
    Sorted(Keys(key, t))
  }

  /** The keys of a context that come before, and after, its hole. */
  function Before(key: seq<int>, c: Ctx): seq<int> {
    match c
    case Top => []
    case InL(p, s, up) => Before(key, up)
    case InR(p, s, up) => Before(key, up) + Keys(key, s) + [KeyAt(key, p)]
  }

  function After(key: seq<int>, c: Ctx): seq<int> {
    match c
    case Top => []
    case InL(p, s, up) => [KeyAt(key, p)] + Keys(key, s) + After(key, up)
    case InR(p, s, up) => After(key, up)
  }

  // ---------------------------------------------------------------------
  // Sequence facts
  // ---------------------------------------------------------------------

  /** Every element of `s` is below `k`. */
  predicate AllBelow(s: seq<int>, k: int) {
    forall j :: 0 <= j < |s| ==> s[j] < k
  }

  /** Every element of `s` is above `k`. */
  predicate AllAbove(s: seq<int>, k: int) {
    forall j :: 0 <= j < |s| ==> k < s[j]
  }

  lemma {:induction false} SortedSplit(a: seq<int>, x: int, b: seq<int>)
    requires Sorted(a + [x] + b)
    ensures Sorted(a) && Sorted(b) && AllBelow(a, x) && AllAbove(b, x)
  {
    var s := a + [x] + b;
    forall i, j | 0 <= i < j < |a| ensures a[i] < a[j] { assert a[i] == s[i] && a[j] == s[j]; }
    forall i, j | 0 <= i < j < |b| ensures b[i] < b[j] {
      assert b[i] == s[|a| + 1 + i] && b[j] == s[|a| + 1 + j];
    }
    forall j | 0 <= j < |a| ensures a[j] < x { assert a[j] == s[j] && x == s[|a|]; }
    forall j | 0 <= j < |b| ensures x < b[j] { assert b[j] == s[|a| + 1 + j] && x == s[|a|]; }
  }

  lemma {:induction false} SortedJoin(a: seq<int>, x: int, b: seq<int>)
    requires Sorted(a) && Sorted(b) && AllBelow(a, x) && AllAbove(b, x)
    ensures Sorted(a + [x] + b)
  {
    var s := a + [x] + b;
    forall i, j | 0 <= i < j < |s| ensures s[i] < s[j] {
      if j < |a| {
        assert s[i] == a[i] && s[j] == a[j];
      } else if j == |a| {
        assert s[i] == a[i];
      } else if i > |a| {
        assert s[i] == b[i - |a| - 1] && s[j] == b[j - |a| - 1];
      } else if i == |a| {
        assert s[j] == b[j - |a| - 1];
      } else {
        assert s[i] == a[i] && s[j] == b[j - |a| - 1];
      }
    }
  }

  lemma {:induction false} SortedInfix(a: seq<int>, b: seq<int>, c: seq<int>)
    requires Sorted(a + b + c)
    ensures Sorted(b)
  {
    var s := a + b + c;
    forall i, j | 0 <= i < j < |b| ensures b[i] < b[j] {
      assert b[i] == s[|a| + i] && b[j] == s[|a| + j];
    }
  }

  /** The hole of an ordered tree holds an ordered subtree. */
  lemma {:induction false} OrderedPlug(key: seq<int>, c: Ctx, t: Tree)
    requires Ordered(key, Plug(c, t))
    ensures Ordered(key, t)
  {
    KeysPlug(key, c, t);
    SortedInfix(Before(key, c), Keys(key, t), After(key, c));
  }

  lemma {:induction false} KeysPlug(key: seq<int>, c: Ctx, t: Tree)
    ensures Keys(key, Plug(c, t)) == Before(key, c) + Keys(key, t) + After(key, c)
    decreases c
  {
    match c
    case Top =>
    case InL(p, s, up) =>
      KeysPlug(key, up, Node(t, p, s));
      KeysUpL(key, p, s, up, t);
    case InR(p, s, up) =>
      KeysPlug(key, up, Node(s, p, t));
      KeysUpR(key, p, s, up, t);
  }

  /** One level of `KeysPlug`. */
  lemma {:induction false} KeysUpL(key: seq<int>, p: nat, s: Tree, up: Ctx, t: Tree)
    ensures Before(key, up) + Keys(key, Node(t, p, s)) + After(key, up) ==
            Before(key, InL(p, s, up)) + Keys(key, t) + After(key, InL(p, s, up))
  {
    var b, kt, ks, a := Before(key, up), Keys(key, t), [KeyAt(key, p)] + Keys(key, s), After(key, up);
    assert Keys(key, Node(t, p, s)) == kt + ks;
    assert After(key, InL(p, s, up)) == ks + a;
    assert b + (kt + ks) + a == b + kt + (ks + a);
  }

  lemma {:induction false} KeysUpR(key: seq<int>, p: nat, s: Tree, up: Ctx, t: Tree)
    ensures Before(key, up) + Keys(key, Node(s, p, t)) + After(key, up) ==
            Before(key, InR(p, s, up)) + Keys(key, t) + After(key, InR(p, s, up))
  {
    var b, ks, kt, a := Before(key, up), Keys(key, s) + [KeyAt(key, p)], Keys(key, t), After(key, up);
    assert Keys(key, Node(s, p, t)) == ks + kt;
    assert Before(key, InR(p, s, up)) == b + ks;
    assert b + (ks + kt) + a == (b + ks) + kt + a;
  }

  /** Keys depend only on the key fields of the nodes of the tree. */
  lemma {:induction false} KeysFrame(key: seq<int>, key': seq<int>, t: Tree)
    requires forall j :: j in Ids(t) ==> KeyAt(key', j) == KeyAt(key, j)
    ensures Keys(key', t) == Keys(key, t)
    decreases t
  {
    match t
    case Nil =>
    case Node(l, i, r) =>
      KeysFrame(key, key', l);
      KeysFrame(key, key', r);
  }

  lemma {:induction false} KeysSize(key: seq<int>, t: Tree)
    ensures |Keys(key, t)| == Size(t)
    decreases t
  {
    match t
    case Nil =>
    case Node(l, i, r) =>
      KeysSize(key, l);
      KeysSize(key, r);
  }

  // ---------------------------------------------------------------------
  // Rotations keep the in-order sequence
  // ---------------------------------------------------------------------

  lemma {:induction false} KeysRot(key: seq<int>, t: Tree)
    ensures Keys(key, RotL(t)) == Keys(key, t)
    ensures Keys(key, RotR(t)) == Keys(key, t)
  {
    match t
    case Nil =>
    case Node(l, c, r) =>
      match r {
        case Nil =>
        case Node(a, b, br) =>
          assert Keys(key, RotL(t)) == (Keys(key, l) + [KeyAt(key, c)] + Keys(key, a)) + [KeyAt(key, b)] + Keys(key, br);
      }
      match l {
        case Nil =>
        case Node(a, b, bl) =>
          assert Keys(key, RotR(t)) == Keys(key, a) + [KeyAt(key, b)] + (Keys(key, bl) + [KeyAt(key, c)] + Keys(key, r));
      }
  }

  /** A rotation anywhere in the tree leaves its in-order key sequence
      unchanged. */
  lemma {:induction false} KeysRotAt(key: seq<int>, t: Tree, x: int)
    ensures Keys(key, RotLeftAt(t, x)) == Keys(key, t)
    ensures Keys(key, RotRightAt(t, x)) == Keys(key, t)
    decreases t
  {
    match t
    case Nil =>
    case Node(l, i, r) =>
      KeysRot(key, t);
      KeysRotAt(key, l, x);
      KeysRotAt(key, r, x);
  }

  lemma {:induction false} KeysApplyFix(key: seq<int>, t: Tree, f: Fix)
    ensures Keys(key, ApplyFix(t, f)) == Keys(key, t)
  {
    match f
    case NoRotation =>
    case LL(gp) => KeysRotAt(key, t, gp);
    case RR(gp) => KeysRotAt(key, t, gp);
    case RL(p, gp) => KeysRotAt(key, t, p); KeysRotAt(key, RotRightAt(t, p), gp);
    case LR(p, gp) => KeysRotAt(key, t, p); KeysRotAt(key, RotLeftAt(t, p), gp);
  }

  // ---------------------------------------------------------------------
  // Descending by key
  // ---------------------------------------------------------------------

  /** One step of the binary-search descent: a key below the node's key can
      only be in the left subtree, one above it only in the right one. */
  lemma {:induction false} SearchStep(key: seq<int>, t: Tree, k: int)
    requires t.Node? && Ordered(key, t)
    ensures Ordered(key, t.left) && Ordered(key, t.right)
    ensures k < KeyAt(key, t.id) ==> (k in Keys(key, t) <==> k in Keys(key, t.left))
    ensures KeyAt(key, t.id) < k ==> (k in Keys(key, t) <==> k in Keys(key, t.right))
  {
    SortedSplit(Keys(key, t.left), KeyAt(key, t.id), Keys(key, t.right));
    if k < KeyAt(key, t.id) {
      assert k !in Keys(key, t.right);
    }
    if KeyAt(key, t.id) < k {
      assert k !in Keys(key, t.left);
    }
  }

  /** One step of the insertion descent: the keys before the new hole stay
      below `k` and those after it stay above `k`. */
  lemma {:induction false} InsertStep(key: seq<int>, c: Ctx, t: Tree, k: int)
    requires t.Node? && Ordered(key, Plug(c, t))
    requires AllBelow(Before(key, c), k) && AllAbove(After(key, c), k)
    ensures k < KeyAt(key, t.id) ==> AllAbove(After(key, InL(t.id, t.right, c)), k)
    ensures KeyAt(key, t.id) < k ==> AllBelow(Before(key, InR(t.id, t.left, c)), k)
    ensures k == KeyAt(key, t.id) ==> k in Keys(key, Plug(c, t))
  {
    OrderedPlug(key, c, t);
    var x := KeyAt(key, t.id);
    assert Keys(key, t) == Keys(key, t.left) + [x] + Keys(key, t.right);
    SortedSplit(Keys(key, t.left), x, Keys(key, t.right));
    if k < x {
      AboveJoin(x, Keys(key, t.right), After(key, c), k);
    }
    if x < k {
      BelowJoin(Before(key, c), Keys(key, t.left), x, k);
    }
    if k == x {
      KeysPlug(key, c, t);
      assert k in Keys(key, t);
    }
  }

  lemma {:induction false} AboveJoin(x: int, r: seq<int>, af: seq<int>, k: int)
    requires k < x && AllAbove(r, x) && AllAbove(af, k)
    ensures AllAbove([x] + r + af, k)
  {
    var a := [x] + r + af;
    forall j | 0 <= j < |a| ensures k < a[j] {
      if j == 0 {
      } else if j <= |r| {
        assert a[j] == r[j - 1];
      } else {
        assert a[j] == af[j - 1 - |r|];
      }
    }
  }

  lemma {:induction false} BelowJoin(bf: seq<int>, l: seq<int>, x: int, k: int)
    requires AllBelow(bf, k) && AllBelow(l, x) && x < k
    ensures AllBelow(bf + l + [x], k)
  {
    var b := bf + l + [x];
    forall j | 0 <= j < |b| ensures b[j] < k {
      if j < |bf| {
        assert b[j] == bf[j];
      } else if j < |bf| + |l| {
        assert b[j] == l[j - |bf|];
      }
    }
  }

  /** The keys before and after a hole depend only on the context's nodes. */
  lemma {:induction false} CtxKeysFrame(key: seq<int>, key': seq<int>, c: Ctx)
    requires forall j :: j in CtxIds(c) ==> KeyAt(key', j) == KeyAt(key, j)
    ensures Before(key', c) == Before(key, c) && After(key', c) == After(key, c)
    decreases c
  {
    match c
    case Top =>
    case InL(p, s, up) =>
      KeysFrame(key, key', s);
      CtxKeysFrame(key, key', up);
    case InR(p, s, up) =>
      KeysFrame(key, key', s);
      CtxKeysFrame(key, key', up);
  }

  /** Where the insertion descent ends, in an empty slot between the keys
      below `k` and those above it, a new leaf with key `k` in a fresh arena
      slot puts `k` in its sorted place and keeps the tree ordered. */
  lemma {:induction false} InsertAtHole(key: seq<int>, c: Ctx, k: int)
    requires Ordered(key, Plug(c, Nil)) && InArena(|key|, Plug(c, Nil))
    requires AllBelow(Before(key, c), k) && AllAbove(After(key, c), k)
    ensures Keys(key + [k], Plug(c, Node(Nil, |key|, Nil))) == InsertSorted(Keys(key, Plug(c, Nil)), k)
    ensures Ordered(key + [k], Plug(c, Node(Nil, |key|, Nil)))
  {
    HoleKeys(key, c, k);
    var b, a := Before(key, c), After(key, c);
    InsertSortedBetween(b, a, k);
    assert [] + b + a == b + a && b + a + [] == b + a;
    SortedInfix([], b, a);
    SortedInfix(b, a, []);
    SortedJoin(b, k, a);
  }

  lemma {:induction false} HoleKeys(key: seq<int>, c: Ctx, k: int)
    requires InArena(|key|, Plug(c, Nil))
    ensures Keys(key + [k], Plug(c, Node(Nil, |key|, Nil))) == Before(key, c) + [k] + After(key, c)
    ensures Keys(key, Plug(c, Nil)) == Before(key, c) + After(key, c)
  {
    var key' := key + [k];
    PlugIds(c, Nil);
    forall j | j in CtxIds(c) ensures KeyAt(key', j) == KeyAt(key, j) {
      assert j in Ids(Plug(c, Nil));
    }
    CtxKeysFrame(key, key', c);
    KeysPlug(key', c, Node(Nil, |key|, Nil));
    KeysPlug(key, c, Nil);
    assert Before(key, c) + Keys(key, Nil) + After(key, c) == Before(key, c) + After(key, c);
  }

  /** The side of its parent on which the insertion descent ends is the one
      the key comparison with the parent picks. */
  lemma {:induction false} HoleSide(key: seq<int>, c: Ctx, k: int)
    requires !c.Top? && AllBelow(Before(key, c), k) && AllAbove(After(key, c), k)
    ensures c.InL? <==> k < KeyAt(key, c.pid)
  {
    if c.InL? {
      assert After(key, c)[0] == KeyAt(key, c.pid);
    } else {
      var b := Before(key, c);
      assert b[|b| - 1] == KeyAt(key, c.pid);
    }
  }

  /** At the end of the insertion descent `k` is absent. */
  lemma {:induction false} AbsentAtHole(key: seq<int>, c: Ctx, k: int)
    requires AllBelow(Before(key, c), k) && AllAbove(After(key, c), k)
    ensures k !in Keys(key, Plug(c, Nil))
  {
    KeysPlug(key, c, Nil);
    var b, a := Before(key, c), After(key, c);
    assert Keys(key, Plug(c, Nil)) == b + a;
    assert k !in b && k !in a;
  }

  // ---------------------------------------------------------------------
  // Insertion into a sorted sequence
  // ---------------------------------------------------------------------

  /** `s` with `k` put in front of the first element not below it. */
  function InsertSorted(s: seq<int>, k: int): seq<int> {
    if s == [] then [k]
    else if k <= s[0] then [k] + s
    else [s[0]] + InsertSorted(s[1..], k)
  }

  lemma {:induction false} InsertSortedMultiset(s: seq<int>, k: int)
    ensures multiset(InsertSorted(s, k)) == multiset(s) + multiset{k}
    decreases |s|
  {
    if s != [] && k > s[0] {
      InsertSortedMultiset(s[1..], k);
      assert s == [s[0]] + s[1..];
    }
  }

  /** The elements after insertion: the old ones and the new key. */
  lemma {:induction false} InsertSortedMembers(s: seq<int>, k: int, x: int)
    ensures x in InsertSorted(s, k) <==> x in s || x == k
    decreases |s|
  {
    if s != [] && k > s[0] {
      InsertSortedMembers(s[1..], k, x);
      assert s == [s[0]] + s[1..];
    }
  }

  /** Inserting an absent key into a sorted sequence gives a sorted
      sequence with exactly one more element, that key. */
  lemma {:induction false} InsertSortedCorrect(s: seq<int>, k: int)
    requires Sorted(s) && k !in s
    ensures Sorted(InsertSorted(s, k))
    ensures multiset(InsertSorted(s, k)) == multiset(s) + multiset{k}
    decreases |s|
  {
    InsertSortedMultiset(s, k);
    if s == [] {
    } else if k <= s[0] {
      InsertSortedHead(s, k);
    } else {
      SortedTail(s);
      InsertSortedTail(s[0], s[1..], k);
      assert InsertSorted(s, k) == [s[0]] + InsertSorted(s[1..], k);
    }
  }

  lemma {:induction false} InsertSortedHead(s: seq<int>, k: int)
    requires Sorted(s) && k !in s && s != [] && k <= s[0]
    ensures Sorted(InsertSorted(s, k))
  {
    assert k != s[0];
    assert AllAbove(s, k) by {
      forall j | 0 <= j < |s| ensures k < s[j] {
        if j > 0 { assert s[0] < s[j]; }
      }
    }
    SortedJoin([], k, s);
    assert [] + [k] + s == InsertSorted(s, k);
  }

  lemma {:induction false} InsertSortedTail(x: int, t: seq<int>, k: int)
    requires Sorted(t) && AllAbove(t, x) && k !in t && x < k
    ensures Sorted([x] + InsertSorted(t, k))
    decreases |t| + 1, 0
  {
    InsertSortedCorrect(t, k);
    InsertSortedAbove(t, k, x);
    SortedJoin([], x, InsertSorted(t, k));
    assert [] + [x] + InsertSorted(t, k) == [x] + InsertSorted(t, k);
  }


  lemma {:induction false} SortedTail(s: seq<int>)
    requires Sorted(s) && s != []
    ensures Sorted(s[1..]) && AllAbove(s[1..], s[0])
  {
    assert s == [] + [s[0]] + s[1..];
    SortedSplit([], s[0], s[1..]);
  }

  /** A bound below every element and below `k` stays below every element
      after inserting `k`. */
  lemma {:induction false} InsertSortedAbove(t: seq<int>, k: int, x: int)
    requires AllAbove(t, x) && x < k
    ensures AllAbove(InsertSorted(t, k), x)
  {
    var rest := InsertSorted(t, k);
    forall j | 0 <= j < |rest| ensures x < rest[j] {
      InsertSortedMembers(t, k, rest[j]);
      if rest[j] != k {
        AboveMember(t, x, rest[j]);
      }
    }
  }


  lemma {:induction false} AboveMember(s: seq<int>, x: int, y: int)
    requires AllAbove(s, x) && y in s
    ensures x < y
  {
    var m :| 0 <= m < |s| && s[m] == y;
  }


  /** When the new key falls between the two parts of a sorted sequence, it
      is inserted exactly there. */
  lemma {:induction false} InsertSortedBetween(a: seq<int>, b: seq<int>, k: int)
    requires AllBelow(a, k) && AllAbove(b, k)
    ensures InsertSorted(a + b, k) == a + [k] + b
    decreases |a|
  {
    if a == [] {
      assert a + b == b;
      if b != [] { assert k <= b[0]; }
    } else {
      assert (a + b)[0] == a[0] && (a + b)[1..] == a[1..] + b;
      InsertSortedBetween(a[1..], b, k);
      assert a == [a[0]] + a[1..];
    }
  }

  // ---------------------------------------------------------------------
  // Filtering
  // ---------------------------------------------------------------------

  /** The elements of `s` that do not occur in `ex`, in their order. */
  function Filter(s: seq<int>, ex: seq<int>): seq<int> {
    if s == [] then []
    else (if s[0] in ex then [] else [s[0]]) + Filter(s[1..], ex)
  }

  lemma {:induction false} FilterAppend(a: seq<int>, b: seq<int>, ex: seq<int>)
    ensures Filter(a + b, ex) == Filter(a, ex) + Filter(b, ex)
    decreases |a|
  {
    if a == [] {
      assert a + b == b;
    } else {
      assert (a + b)[0] == a[0] && (a + b)[1..] == a[1..] + b;
      FilterAppend(a[1..], b, ex);
    }
  }

  lemma {:induction false} FilterKeep(s: seq<int>, ex: seq<int>)
    requires forall j :: 0 <= j < |s| ==> s[j] !in ex
    ensures Filter(s, ex) == s
    decreases |s|
  {
    if s != [] {
      FilterKeep(s[1..], ex);
    }
  }

  lemma {:induction false} FilterDrop(s: seq<int>, ex: seq<int>)
    requires forall j :: 0 <= j < |s| ==> s[j] in ex
    ensures Filter(s, ex) == []
    decreases |s|
  {
    if s != [] {
      FilterDrop(s[1..], ex);
    }
  }

  /** What survives a filter: exactly the elements outside `ex`. */
  lemma {:induction false} FilterMembers(s: seq<int>, ex: seq<int>, x: int)
    ensures x in Filter(s, ex) <==> x in s && x !in ex
    decreases |s|
  {
    if s != [] {
      FilterMembers(s[1..], ex, x);
      assert s == [s[0]] + s[1..];
    }
  }

  /** Filtering keeps a sequence sorted. */
  lemma {:induction false} FilterSorted(s: seq<int>, ex: seq<int>)
    requires Sorted(s)
    ensures Sorted(Filter(s, ex))
    decreases |s|
  {
    if s != [] {
      assert s == [] + [s[0]] + s[1..];
      SortedSplit([], s[0], s[1..]);
      FilterSorted(s[1..], ex);
      var rest := Filter(s[1..], ex);
      if s[0] !in ex {
        forall j | 0 <= j < |rest| ensures s[0] < rest[j] {
          FilterMembers(s[1..], ex, rest[j]);
          var m :| 0 <= m < |s[1..]| && s[1..][m] == rest[j];
        }
        SortedJoin([], s[0], rest);
      }
    }
  }

  // ---------------------------------------------------------------------
  // The removal, on shapes
  // ---------------------------------------------------------------------

  /** Every node of `t` is a slot of an arena of `n` slots. */
  ghost predicate InArena(n: int, t: Tree) {
    forall j :: j in Ids(t) ==> 0 <= j < n
  }

  /** The result of removing a key: the new shape, the new key fields and
      the subtree that the removal detaches from the tree. */
  datatype Removal = Removal(shape: Tree, key: seq<int>, lost: Tree)

  /** `key` with slot `n` overwritten by `v` (unchanged outside the arena). */
  function SetKey(key: seq<int>, n: int, v: int): seq<int> {
    if 0 <= n < |key| then key[n := v] else key
  }

  /** The index of the rightmost node: the predecessor of the node whose
      left subtree `t` is. */
  function Rightmost(t: Tree): int
    requires t.Node?
  {
    if t.right.Nil? then t.id else Rightmost(t.right)
  }

  /** The left subtree of the rightmost node. */
  function RightmostLeft(t: Tree): Tree
    requires t.Node?
  {
    if t.right.Nil? then t.left else RightmostLeft(t.right)
  }

  /** `t` with its rightmost node replaced by that node's right child, which
      is empty: the rightmost node's left subtree goes with it. */
  function DropRightmost(t: Tree): Tree
    requires t.Node?
  {
    if t.right.Nil? then t.right else Node(t.left, t.id, DropRightmost(t.right))
  }

  /** Splicing out the root of `t`: with at most one child the root is
      replaced by that child (or by nothing); with two children the key of
      the predecessor is copied into the root and the predecessor is
      replaced by its right child. */
  function Excise(key: seq<int>, t: Tree): Removal
    requires t.Node?
  {
    if t.left.Nil? then Removal(t.right, key, Nil)
    else if t.right.Nil? then Removal(t.left, key, Nil)
    else
      Removal(Node(DropRightmost(t.left), t.id, t.right),
              SetKey(key, t.id, KeyAt(key, Rightmost(t.left))),
              RightmostLeft(t.left))
  }

  /** Removal of key `k`: descend as the binary search does, then excise
      the node found; an absent key changes nothing. */
  function RemoveSpec(key: seq<int>, t: Tree, k: int): Removal {
    match t
    case Nil => Removal(Nil, key, Nil)
    case Node(l, i, r) =>
      if k == KeyAt(key, i) then Excise(key, t)
      else if k < KeyAt(key, i) then
        var x := RemoveSpec(key, l, k);
        Removal(Node(x.shape, i, r), x.key, x.lost)
      else
        var x := RemoveSpec(key, r, k);
        Removal(Node(l, i, x.shape), x.key, x.lost)
  }

  function PlugRemoval(c: Ctx, x: Removal): Removal {
    Removal(Plug(c, x.shape), x.key, x.lost)
  }

  lemma {:induction false} RightmostFacts(t: Tree)
    requires t.Node?
    ensures Rightmost(t) in Ids(t)
    ensures Ids(DropRightmost(t)) + Ids(RightmostLeft(t)) + {Rightmost(t)} == Ids(t)
    ensures Distinct(t) ==> Distinct(DropRightmost(t)) && Distinct(RightmostLeft(t))
    ensures Distinct(t) ==> Rightmost(t) !in Ids(DropRightmost(t)) + Ids(RightmostLeft(t))
    ensures Distinct(t) ==> Ids(DropRightmost(t)) !! Ids(RightmostLeft(t))
    decreases t
  {
    if t.right.Node? {
      RightmostFacts(t.right);
    }
  }

  /** The in-order keys of `t` are those of its rightmost-dropped version,
      then those of the detached left subtree, then the predecessor key. */
  lemma {:induction false} KeysRightmost(key: seq<int>, t: Tree)
    requires t.Node?
    ensures Keys(key, t) == Keys(key, DropRightmost(t)) + Keys(key, RightmostLeft(t)) + [KeyAt(key, Rightmost(t))]
    decreases t
  {
    if t.right.Node? {
      KeysRightmost(key, t.right);
    }
  }

  /** What the removal touches: nodes of `t` only. */
  lemma {:induction false} RemoveSpecFrame(key: seq<int>, t: Tree, k: int)
    ensures |RemoveSpec(key, t, k).key| == |key|
    ensures Ids(RemoveSpec(key, t, k).shape) + Ids(RemoveSpec(key, t, k).lost) <= Ids(t)
    ensures Distinct(t) ==> Distinct(RemoveSpec(key, t, k).shape)
    ensures Distinct(t) ==> Ids(RemoveSpec(key, t, k).shape) !! Ids(RemoveSpec(key, t, k).lost)
    ensures Distinct(t) ==> forall j :: j in Ids(RemoveSpec(key, t, k).lost) ==> KeyAt(RemoveSpec(key, t, k).key, j) == KeyAt(key, j)
    ensures forall j :: j !in Ids(t) ==> KeyAt(RemoveSpec(key, t, k).key, j) == KeyAt(key, j)
    decreases t
  {
    match t
    case Nil =>
    case Node(l, i, r) =>
      if k == KeyAt(key, i) {
        if l.Node? && r.Node? {
          RightmostFacts(l);
        }
      } else if k < KeyAt(key, i) {
        RemoveSpecFrame(key, l, k);
      } else {
        RemoveSpecFrame(key, r, k);
      }
  }

  /** The in-order keys after a removal: the old sequence without `k` and
      without the keys of the detached subtree.  In particular `k` is gone
      and the order is kept. */
  lemma {:induction false} RemoveSpecKeys(key: seq<int>, t: Tree, k: int)
    requires Ordered(key, t) && Distinct(t) && InArena(|key|, t)
    ensures var x := RemoveSpec(key, t, k);
            Keys(x.key, x.shape) == Filter(Keys(key, t), [k] + Keys(key, x.lost))
    decreases t
  {
    match t
    case Nil =>
    case Node(l, i, r) =>
      assert Ids(t) == Ids(l) + {i} + Ids(r);
      assert InArena(|key|, l) && InArena(|key|, r) && i < |key| by {
        assert i in Ids(t);
        forall j | j in Ids(l) ensures j < |key| { assert j in Ids(t); }
        forall j | j in Ids(r) ensures j < |key| { assert j in Ids(t); }
      }
      if k == KeyAt(key, i) {
        if l.Node? && r.Node? {
          ExciseKeys(key, t, k);
        } else {
          assert [k] + Keys(key, Nil) == [k];
          if l.Nil? {
            assert Keys(key, t) == [] + [k] + Keys(key, r);
            FilterOut([], k, Keys(key, r), [k]);
          } else {
            assert Keys(key, t) == Keys(key, l) + [k] + [];
            FilterOut(Keys(key, l), k, [], [k]);
          }
        }
      } else if k < KeyAt(key, i) {
        SortedSplit(Keys(key, l), KeyAt(key, i), Keys(key, r));
        RemoveSpecKeys(key, l, k);
        RemoveSpecKeysLeft(key, t, k);
      } else {
        SortedSplit(Keys(key, l), KeyAt(key, i), Keys(key, r));
        RemoveSpecKeys(key, r, k);
        RemoveSpecKeysRight(key, t, k);
      }
  }

  /** A sorted sequence filtered by a list of its own members below `m`
      keeps `m` and everything after it. */
  lemma {:induction false} FilterBelow(a: seq<int>, m: int, b: seq<int>, ex: seq<int>)
    requires Sorted(a + [m] + b) && AllBelow(ex, m)
    ensures Filter(a + [m] + b, ex) == Filter(a, ex) + [m] + b
  {
    SortedSplit(a, m, b);
    FilterAppend(a + [m], b, ex);
    FilterAppend(a, [m], ex);
    forall j | 0 <= j < |[m] + b| ensures ([m] + b)[j] !in ex {
      var y := ([m] + b)[j];
      forall e | 0 <= e < |ex| ensures ex[e] != y {
        if j > 0 { assert y == b[j - 1]; }
      }
    }
    FilterKeep([m] + b, ex);
    FilterAppend([m], b, ex);
  }

  /** The mirror image: members above `m` only. */
  lemma {:induction false} FilterAbove(a: seq<int>, m: int, b: seq<int>, ex: seq<int>)
    requires Sorted(a + [m] + b) && AllAbove(ex, m)
    ensures Filter(a + [m] + b, ex) == a + [m] + Filter(b, ex)
  {
    SortedSplit(a, m, b);
    FilterAppend(a + [m], b, ex);
    forall j | 0 <= j < |a + [m]| ensures (a + [m])[j] !in ex {
      var y := (a + [m])[j];
      forall e | 0 <= e < |ex| ensures ex[e] != y {
        if j < |a| { assert y == a[j]; }
      }
    }
    FilterKeep(a + [m], ex);
  }

  /** Filtering out just the middle element of a sorted sequence. */
  lemma {:induction false} FilterOut(a: seq<int>, m: int, b: seq<int>, ex: seq<int>)
    requires Sorted(a + [m] + b) && ex == [m]
    ensures Filter(a + [m] + b, ex) == a + b
  {
    SortedSplit(a, m, b);
    FilterOutParts(a, m, b, ex);
  }

  lemma {:induction false} FilterOutParts(a: seq<int>, m: int, b: seq<int>, ex: seq<int>)
    requires AllBelow(a, m) && AllAbove(b, m) && ex == [m]
    ensures Filter(a + [m] + b, ex) == a + b
  {
    assert Filter(a, ex) == a by {
      forall j | 0 <= j < |a| ensures a[j] !in ex { }
      FilterKeep(a, ex);
    }
    assert Filter(b, ex) == b by {
      forall j | 0 <= j < |b| ensures b[j] !in ex { }
      FilterKeep(b, ex);
    }
    assert Filter([m], ex) == [] by {
      assert [m][0] in ex && [m][1..] == [];
    }
    FilterAppend(a + [m], b, ex);
    FilterAppend(a, [m], ex);
    assert a + [] == a;
  }


  lemma {:induction false} RemoveSpecKeysLeft(key: seq<int>, t: Tree, k: int)
    requires Ordered(key, t) && Distinct(t) && t.Node? && k < KeyAt(key, t.id)
    requires var x := RemoveSpec(key, t.left, k);
             Keys(x.key, x.shape) == Filter(Keys(key, t.left), [k] + Keys(key, x.lost))
    ensures var x := RemoveSpec(key, t, k);
            Keys(x.key, x.shape) == Filter(Keys(key, t), [k] + Keys(key, x.lost))
  {
    var x := RemoveSpec(key, t.left, k);
    var m := KeyAt(key, t.id);
    RemoveSpecFrame(key, t.left, k);
    KeysFrame(key, x.key, t.right);
    assert KeyAt(x.key, t.id) == m;
    SortedSplit(Keys(key, t.left), m, Keys(key, t.right));
    RemoveSpecLostBelow(key, t.left, k, m);
    var ex := [k] + Keys(key, x.lost);
    assert AllBelow(ex, m) by {
      forall j | 0 <= j < |ex| ensures ex[j] < m {
        if j > 0 { assert ex[j] == Keys(key, x.lost)[j - 1]; }
      }
    }
    FilterBelow(Keys(key, t.left), m, Keys(key, t.right), ex);
  }

  lemma {:induction false} RemoveSpecKeysRight(key: seq<int>, t: Tree, k: int)
    requires Ordered(key, t) && Distinct(t) && t.Node? && KeyAt(key, t.id) < k
    requires var x := RemoveSpec(key, t.right, k);
             Keys(x.key, x.shape) == Filter(Keys(key, t.right), [k] + Keys(key, x.lost))
    ensures var x := RemoveSpec(key, t, k);
            Keys(x.key, x.shape) == Filter(Keys(key, t), [k] + Keys(key, x.lost))
  {
    var x := RemoveSpec(key, t.right, k);
    var m := KeyAt(key, t.id);
    RemoveSpecFrame(key, t.right, k);
    KeysFrame(key, x.key, t.left);
    assert KeyAt(x.key, t.id) == m;
    SortedSplit(Keys(key, t.left), m, Keys(key, t.right));
    RemoveSpecLostAbove(key, t.right, k, m);
    var ex := [k] + Keys(key, x.lost);
    assert AllAbove(ex, m) by {
      forall j | 0 <= j < |ex| ensures m < ex[j] {
        if j > 0 { assert ex[j] == Keys(key, x.lost)[j - 1]; }
      }
    }
    FilterAbove(Keys(key, t.left), m, Keys(key, t.right), ex);
  }

  /** The two-children case: the predecessor key moves up, the predecessor's
      left subtree is detached. */
  lemma {:induction false} ExciseKeys(key: seq<int>, t: Tree, k: int)
    requires Ordered(key, t) && Distinct(t) && t.Node? && t.left.Node? && t.right.Node? && t.id < |key|
    requires k == KeyAt(key, t.id)
    ensures var x := Excise(key, t);
            Keys(x.key, x.shape) == Filter(Keys(key, t), [k] + Keys(key, x.lost))
  {
    var l := t.left;
    var pre, lost := Keys(key, DropRightmost(l)), Keys(key, RightmostLeft(l));
    var pk := KeyAt(key, Rightmost(l));
    KeysRightmost(key, l);
    assert Keys(key, t) == pre + lost + [pk] + [k] + Keys(key, t.right);
    PredecessorOrder(pre, lost, pk, k, Keys(key, t.right));
    FilterPredecessor(pre, lost, pk, k, Keys(key, t.right));
    ExciseShapeKeys(key, t);
  }

  /** After the splice the root carries the predecessor key. */
  lemma {:induction false} ExciseShapeKeys(key: seq<int>, t: Tree)
    requires Distinct(t) && t.Node? && t.left.Node? && t.right.Node? && t.id < |key|
    ensures var x := Excise(key, t);
            Keys(x.key, x.shape) ==
              Keys(key, DropRightmost(t.left)) + [KeyAt(key, Rightmost(t.left))] + Keys(key, t.right)
  {
    var l, i, r := t.left, t.id, t.right;
    var pk := KeyAt(key, Rightmost(l));
    RightmostFacts(l);
    assert i !in Ids(DropRightmost(l));
    SetKeyFrame(key, i, pk, DropRightmost(l));
    SetKeyFrame(key, i, pk, r);
    assert KeyAt(SetKey(key, i, pk), i) == pk;
  }

  lemma {:induction false} PredecessorOrder(pre: seq<int>, lost: seq<int>, pk: int, k: int, rs: seq<int>)
    requires Sorted(pre + lost + [pk] + [k] + rs)
    ensures Sorted(pre + lost) && AllBelow(pre + lost, pk) && pk < k && AllAbove(rs, k)
  {
    SortedSplit(pre + lost + [pk], k, rs);
    assert pre + lost + [pk] == (pre + lost) + [pk] + [];
    SortedSplit(pre + lost, pk, []);
    assert (pre + lost + [pk])[|pre + lost|] == pk;
  }

  /** Overwriting the key of a node outside `t` leaves the keys of `t` alone. */
  lemma {:induction false} SetKeyFrame(key: seq<int>, n: int, v: int, t: Tree)
    requires n !in Ids(t)
    ensures Keys(SetKey(key, n, v), t) == Keys(key, t)
  {
    KeysFrame(key, SetKey(key, n, v), t);
  }

  /** The sequence fact behind `ExciseKeys`. */
  lemma {:induction false} FilterPredecessor(pre: seq<int>, lost: seq<int>, pk: int, k: int, rs: seq<int>)
    requires Sorted(pre + lost) && AllBelow(pre + lost, pk) && pk < k && AllAbove(rs, k)
    ensures Filter(pre + lost + [pk] + [k] + rs, [k] + lost) == pre + [pk] + rs
  {
    var ex := [k] + lost;
    FilterAppend(pre + lost + [pk] + [k], rs, ex);
    FilterAppend(pre + lost + [pk], [k], ex);
    FilterAppend(pre + lost, [pk], ex);
    FilterAppend(pre, lost, ex);
    FilterPredecessorParts(pre, lost, pk, k, rs);
  }

  lemma {:induction false} FilterPredecessorParts(pre: seq<int>, lost: seq<int>, pk: int, k: int, rs: seq<int>)
    requires Sorted(pre + lost) && AllBelow(pre + lost, pk) && pk < k && AllAbove(rs, k)
    ensures Filter(pre, [k] + lost) == pre && Filter(lost, [k] + lost) == []
    ensures Filter([pk], [k] + lost) == [pk] && Filter([k], [k] + lost) == []
    ensures Filter(rs, [k] + lost) == rs
  {
    var ex := [k] + lost;
    assert AllBelow(lost, pk) by {
      forall m | 0 <= m < |lost| ensures lost[m] < pk {
        assert (pre + lost)[|pre| + m] == lost[m];
      }
    }
    forall j | 0 <= j < |pre| ensures pre[j] !in ex {
      assert (pre + lost)[j] == pre[j];
      PreBelowLost(pre, lost, j);
    }
    FilterKeep(pre, ex);
    forall j | 0 <= j < |lost| ensures lost[j] in ex {
      assert ex[1 + j] == lost[j];
    }
    FilterDrop(lost, ex);
    NotInBelow(pk, k, lost);
    FilterKeep([pk], ex);
    assert ex[0] == k;
    FilterDrop([k], ex);
    forall j | 0 <= j < |rs| ensures rs[j] !in ex {
      NotInBelow(rs[j], k, lost);
    }
    FilterKeep(rs, ex);
  }

  /** A value above every element of `[k] + s` is not among them. */
  lemma {:induction false} NotInBelow(y: int, k: int, s: seq<int>)
    requires k != y && forall m :: 0 <= m < |s| ==> s[m] < y
    ensures y !in [k] + s
  {
  }

  lemma {:induction false} PreBelowLost(pre: seq<int>, lost: seq<int>, j: int)
    requires Sorted(pre + lost) && 0 <= j < |pre|
    ensures pre[j] !in lost
  {
    forall m | 0 <= m < |lost| ensures lost[m] != pre[j] {
      assert (pre + lost)[j] == pre[j] && (pre + lost)[|pre| + m] == lost[m];
    }
  }

  /** Every key the removal touches (k and the detached keys) lies in the
      subtree the descent entered. */
  lemma {:induction false} RemoveSpecLostBelow(key: seq<int>, t: Tree, k: int, bound: int)
    requires k < bound && AllBelow(Keys(key, t), bound)
    ensures AllBelow(Keys(key, RemoveSpec(key, t, k).lost), bound)
  {
    RemoveSpecLostKeys(key, t, k);
    var lk := Keys(key, RemoveSpec(key, t, k).lost);
    forall j | 0 <= j < |lk| ensures lk[j] < bound {
      assert lk[j] in lk;
      var m :| 0 <= m < |Keys(key, t)| && Keys(key, t)[m] == lk[j];
    }
  }

  lemma {:induction false} RemoveSpecLostAbove(key: seq<int>, t: Tree, k: int, bound: int)
    requires bound < k && AllAbove(Keys(key, t), bound)
    ensures AllAbove(Keys(key, RemoveSpec(key, t, k).lost), bound)
  {
    RemoveSpecLostKeys(key, t, k);
    var lk := Keys(key, RemoveSpec(key, t, k).lost);
    forall j | 0 <= j < |lk| ensures bound < lk[j] {
      assert lk[j] in lk;
      var m :| 0 <= m < |Keys(key, t)| && Keys(key, t)[m] == lk[j];
    }
  }

  lemma {:induction false} RemoveSpecLostKeys(key: seq<int>, t: Tree, k: int)
    ensures forall z :: z in Keys(key, RemoveSpec(key, t, k).lost) ==> z in Keys(key, t)
    decreases t
  {
    match t
    case Nil =>
    case Node(l, i, r) =>
      if k == KeyAt(key, i) {
        if l.Node? && r.Node? {
          KeysRightmost(key, l);
        }
      } else if k < KeyAt(key, i) {
        RemoveSpecLostKeys(key, l, k);
      } else {
        RemoveSpecLostKeys(key, r, k);
      }
  }

  /** Removing through a context: when `k` lies in the plugged subtree, the
      removal happens inside it. */
  lemma {:induction false} RemoveSpecPlug(key: seq<int>, c: Ctx, sub: Tree, k: int)
    requires Ordered(key, Plug(c, sub)) && k in Keys(key, sub)
    ensures RemoveSpec(key, Plug(c, sub), k) == PlugRemoval(c, RemoveSpec(key, sub, k))
    decreases c
  {
    match c
    case Top =>
    case InL(p, s, up) =>
      RemoveSpecPlug(key, up, Node(sub, p, s), k);
      OrderedPlug(key, up, Node(sub, p, s));
      SortedSplit(Keys(key, sub), KeyAt(key, p), Keys(key, s));
    case InR(p, s, up) =>
      RemoveSpecPlug(key, up, Node(s, p, sub), k);
      OrderedPlug(key, up, Node(s, p, sub));
      SortedSplit(Keys(key, s), KeyAt(key, p), Keys(key, sub));
  }
}

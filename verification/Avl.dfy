/** The intrusive AVL tree with parent pointers. */
module Avl {
  import opened AvlModel

  datatype Range = Range(left: int, right: int)

  /** What a node's container is compared by: a non-empty range. */
  type Span = r: Range | r.left < r.right witness Range(0, 1)

  class Node {
    const key: Span
    var f: Node?
    var lc: Node?
    var rc: Node?
    var subth: nat

    constructor (key: Span)
      ensures this.key == key
    {
      this.key := key;
    }
  }

  /** `avln_t **`: the place a subtree hangs from. */
  datatype Slot = RootSlot | LcOf(n: Node) | RcOf(n: Node)

  ghost function Head(t: Tree<Node>): Node? {
    if t.Leaf? then null else t.n
  }

  ghost function Father(p: Path<Node>): Node? {
    if p.Top? then null else p.n
  }

  ghost function SlotOf(p: Path<Node>): Slot {
    match p
    case Top => RootSlot
    case InLeft(_, n, _, _) => LcOf(n)
    case InRight(_, _, n, _) => RcOf(n)
  }

  /** The heap below `x` is the tree `t`, hanging from father `f`. */
  ghost predicate Linked(t: Tree<Node>, x: Node?, f: Node?)
    reads Nodes(t)
  {
    match t
    case Leaf => x == null
    case Fork(l, n, h, r) => x == n && n.f == f && n.subth == h && Linked(l, n.lc, n) && Linked(r, n.rc, n)
  }

  // ---------- Comparators ----------

  /** avlcr_e: how the first range stands to the second. */
  datatype Order = Less | Equal | Greater | Inside | Contains | Overlap

  type Comparator = (Span, Span) -> Order

  /** "Less" is a strict order, "greater" is its converse, and what lies beside a range lies beside its parts. */
  ghost predicate Laws(cmp: Comparator) {
    && (forall a, b :: cmp(a, b) == Greater <==> cmp(b, a) == Less)
    && (forall a, b, c :: cmp(a, b) == Less && cmp(b, c) == Less ==> cmp(a, c) == Less)
    && (forall a, b, q :: cmp(a, b) == Less && Holds(cmp, b, q) ==> cmp(a, q) == Less)
    && (forall a, b, q :: cmp(a, b) == Greater && Holds(cmp, b, q) ==> cmp(a, q) == Greater)
  }

  predicate Holds(cmp: Comparator, a: Span, q: Span) {
    cmp(a, q) == Contains || cmp(a, q) == Equal
  }

  predicate Beside(cmp: Comparator, a: Span, b: Span) {
    cmp(a, b) == Less || cmp(a, b) == Greater
  }

  /** slabcmp, the comparator of the slab allocator. */
  function SlabCmp(a: Span, b: Span): Order {
    if a.right <= b.left then Less
    else if a.left >= b.right then Greater
    else if a.left == b.left && a.right == b.right then Equal
    else if a.left >= b.left && a.right <= b.right then Inside
    else if a.left <= b.left && a.right >= b.right then Contains
    else Overlap
  }

  predicate Covers(r: Span, x: int) {
    r.left <= x < r.right
  }

  /** Every address of `a` is below every address of `b`. */
  ghost predicate AllBelow(a: Span, b: Span) {
    forall x, y :: Covers(a, x) && Covers(b, y) ==> x < y
  }

  /** Every address of `a` is one of `b`. */
  ghost predicate AllIn(a: Span, b: Span) {
    forall x :: Covers(a, x) ==> Covers(b, x)
  }

  lemma RangesByAddress(a: Span, b: Span)
    ensures AllBelow(a, b) <==> a.right <= b.left
    ensures AllIn(a, b) <==> b.left <= a.left && a.right <= b.right
  {
    assert Covers(a, a.left) && Covers(a, a.right - 1) && Covers(b, b.left);
  }

  /** slabcmp obeys the laws; its "beside" is sharing no address, its "holds" is inclusion of addresses. */
  lemma SlabCmpLaws()
    ensures Laws(SlabCmp)
    ensures forall a: Span, b: Span :: SlabCmp(a, b) == Less <==> AllBelow(a, b)
    ensures forall a: Span, b: Span :: SlabCmp(a, b) == Greater <==> AllBelow(b, a)
    ensures forall a: Span, b: Span :: SlabCmp(a, b) == Equal <==> a == b
    ensures forall a: Span, b: Span :: SlabCmp(a, b) == Inside <==> AllIn(a, b) && a != b
    ensures forall a: Span, b: Span :: SlabCmp(a, b) == Contains <==> AllIn(b, a) && a != b
    ensures forall a: Span, b: Span :: Beside(SlabCmp, a, b) <==> !exists x :: Covers(a, x) && Covers(b, x)
    ensures forall a: Span, q: Span :: Holds(SlabCmp, a, q) <==> forall x :: Covers(q, x) ==> Covers(a, x)
  {
    forall a: Span, b: Span
      ensures AllBelow(a, b) <==> a.right <= b.left
      ensures AllIn(a, b) <==> b.left <= a.left && a.right <= b.right
    {
      RangesByAddress(a, b);
    }
    forall a: Span, b: Span
      ensures Beside(SlabCmp, a, b) <==> !exists x :: Covers(a, x) && Covers(b, x)
    {
      var m := if a.left > b.left then a.left else b.left;
      assert !Beside(SlabCmp, a, b) ==> Covers(a, m) && Covers(b, m);
    }
    forall a: Span, q: Span
      ensures Holds(SlabCmp, a, q) <==> forall x :: Covers(q, x) ==> Covers(a, x)
    {
      assert Covers(q, q.left) && Covers(q, q.right - 1);
      assert Holds(SlabCmp, a, q) <==> Covers(a, q.left) && Covers(a, q.right - 1);
    }
  }

  /** Search order: every node is less than all that follow it. */
  ghost predicate Ordered(cmp: Comparator, s: seq<Node>) {
    forall i, j :: 0 <= i < j < |s| ==> cmp(s[i].key, s[j].key) == Less
  }

  ghost predicate All(cmp: Comparator, s: seq<Node>, key: Span, o: Order) {
    forall i :: 0 <= i < |s| ==> cmp(s[i].key, key) == o
  }

  /** The key belongs into the hole of the path: below everything before it, above everything after it. */
  ghost predicate Belongs(cmp: Comparator, p: Path<Node>, key: Span) {
    All(cmp, Before(p), key, Less) && All(cmp, After(p), key, Greater)
  }

  lemma OrderedParts(cmp: Comparator, a: seq<Node>, n: Node, b: seq<Node>)
    requires Ordered(cmp, a + [n] + b)
    ensures All(cmp, a, n.key, Less) && forall i :: 0 <= i < |b| ==> cmp(n.key, b[i].key) == Less
    ensures Ordered(cmp, a) && Ordered(cmp, b)
  {
    var s := a + [n] + b;
    assert s[|a|] == n;
    assert forall i :: 0 <= i < |a| ==> s[i] == a[i];
    assert forall i :: 0 <= i < |b| ==> s[|a| + 1 + i] == b[i];
  }

  /** Going right past a smaller node, or left past a greater one, keeps the key in place. */
  lemma DescendRight(cmp: Comparator, p: Path<Node>, l: Tree<Node>, n: Node, h: nat, r: Tree<Node>, key: Span)
    requires Laws(cmp) && Belongs(cmp, p, key) && cmp(n.key, key) == Less && Ordered(cmp, Inorder(Fork(l, n, h, r)))
    ensures Belongs(cmp, InRight(p, l, n, h), key) && Ordered(cmp, Inorder(r))
  {
    OrderedParts(cmp, Inorder(l), n, Inorder(r));
  }

  lemma DescendLeft(cmp: Comparator, p: Path<Node>, l: Tree<Node>, n: Node, h: nat, r: Tree<Node>, key: Span)
    requires Laws(cmp) && Belongs(cmp, p, key) && cmp(n.key, key) == Greater && Ordered(cmp, Inorder(Fork(l, n, h, r)))
    ensures Belongs(cmp, InLeft(p, n, h, r), key) && Ordered(cmp, Inorder(l))
  {
    OrderedParts(cmp, Inorder(l), n, Inorder(r));
    var b := Inorder(r);
    forall i | 0 <= i < |b| ensures cmp(b[i].key, key) == Greater {
      assert cmp(key, n.key) == Less && cmp(n.key, b[i].key) == Less;
    }
  }

  /** An ordered list stays ordered around a key that belongs between two parts of it. */
  lemma OrderedInsert(cmp: Comparator, a: seq<Node>, n: Node, b: seq<Node>)
    requires Laws(cmp) && Ordered(cmp, a + b) && All(cmp, a, n.key, Less) && All(cmp, b, n.key, Greater)
    ensures Ordered(cmp, a + [n] + b)
  {
    var s, s' := a + b, a + [n] + b;
    forall i, j | 0 <= i < j < |s'| ensures cmp(s'[i].key, s'[j].key) == Less {
      if j < |a| {
        assert s'[i] == s[i] && s'[j] == s[j];
      } else if i > |a| {
        assert s'[i] == s[i - 1] && s'[j] == s[j - 1];
      } else if i == |a| {
        assert s'[j] == b[j - |a| - 1];
      } else if j == |a| {
        assert s'[i] == a[i];
      } else {
        assert s'[i] == s[i] && s'[j] == s[j - 1];
      }
    }
  }

  lemma OrderedDropped(cmp: Comparator, s: seq<Node>, s': seq<Node>, n: Node)
    requires Ordered(cmp, s) && Dropped(s, s', n)
    ensures Ordered(cmp, s')
  {
  }

  /** Where the descent stops without a match, no node anywhere holds the key. */
  lemma NoHolder(cmp: Comparator, q: Path<Node>, s: Tree<Node>, key: Span)
    requires Laws(cmp) && Belongs(cmp, q, key) && Ordered(cmp, Inorder(s))
    requires s.Fork? ==> !Beside(cmp, s.n.key, key) && !Holds(cmp, s.n.key, key)
    ensures forall m :: m in Nodes(Plug(q, s)) ==> !Holds(cmp, m.key, key)
  {
    assert allocated(Nodes(Plug(q, s)));
    PlugInorder(q, s);
    forall m | m in Nodes(Plug(q, s)) ensures !Holds(cmp, m.key, key) {
      InorderMember(Plug(q, s), m);
      assert m in Before(q) || m in Inorder(s) || m in After(q);
      if m in Inorder(s) {
        var l, r := Inorder(s.l), Inorder(s.r);
        OrderedParts(cmp, l, s.n, r);
        Members(l, s.n, r);
        if m in l {
          assert cmp(m.key, s.n.key) == Less;
          assert cmp(s.n.key, m.key) == Greater;
        } else if m in r {
          assert cmp(s.n.key, m.key) == Less;
        }
      }
    }
  }

  class AvlTree {
    var root: Node?
    ghost var t: Tree<Node>

    /** The heap above the subtree `x` is the path `p`. */
    ghost predicate Around(p: Path<Node>, x: Node?)
      reads this`root, PathNodes(p)
    {
      match p
      case Top => root == x
      case InLeft(up, n, h, r) =>
        n.lc == x && n.f == Father(up) && n.subth == h && Linked(r, n.rc, n) && Around(up, n)
      case InRight(up, l, n, h) =>
        n.rc == x && n.f == Father(up) && n.subth == h && Linked(l, n.lc, n) && Around(up, n)
    }

    /** The heap is the tree `t` inside the path `p`, every node occurring once. */
    ghost predicate At(p: Path<Node>, t: Tree<Node>)
      reads this`root, PathNodes(p), Nodes(t)
    {
      && Linked(t, Head(t), Father(p)) && Around(p, Head(t))
      && Distinct(t) && PathDistinct(p) && Nodes(t) !! PathNodes(p)
    }

    lemma FocusLeft(p: Path<Node>, l: Tree<Node>, n: Node, h: nat, r: Tree<Node>)
      ensures At(p, Fork(l, n, h, r)) <==> At(InLeft(p, n, h, r), l)
    {
      if At(p, Fork(l, n, h, r)) { assert Linked(l, n.lc, n); }
    }

    lemma FocusRight(p: Path<Node>, l: Tree<Node>, n: Node, h: nat, r: Tree<Node>)
      ensures At(p, Fork(l, n, h, r)) <==> At(InRight(p, l, n, h), r)
    {
      if At(p, Fork(l, n, h, r)) { assert Linked(r, n.rc, n); }
    }

    /** Moving the point of view along a piece of the path. */
    lemma {:induction false} Refocus(q: Path<Node>, p: Path<Node>, t: Tree<Node>)
      ensures At(Join(q, p), t) <==> At(p, Plug(q, t))
      decreases q
    {
      match q {
        case Top =>
        case InLeft(up, n, h, r) =>
          FocusLeft(Join(up, p), t, n, h, r);
          Refocus(up, p, Fork(t, n, h, r));
        case InRight(up, l, n, h) =>
          FocusRight(Join(up, p), l, n, h, t);
          Refocus(up, p, Fork(l, n, h, t));
      }
    }

    // ---------- Slots ----------

    function Load(s: Slot, ghost p: Path<Node>, ghost t: Tree<Node>): (x: Node?)
      reads this`root, PathNodes(p), Nodes(t)
      requires At(p, t) && s == SlotOf(p)
      ensures x == Head(t)
    {
      match s
      case RootSlot => root
      case LcOf(n) => n.lc
      case RcOf(n) => n.rc
    }

    method Store(s: Slot, x: Node?, ghost p: Path<Node>, ghost t: Tree<Node>)
      requires Around(p, Head(t)) && PathDistinct(p) && s == SlotOf(p)
      modifies this`root, if p.Top? then {} else {p.n}
      ensures Around(p, x)
      ensures !p.Top? ==> p.n.f == old(p.n.f) && p.n.subth == old(p.n.subth)
    {
      assert allocated(PathNodes(p));
      match s
      case RootSlot => root := x;
      case LcOf(n) => n.lc := x;
      case RcOf(n) => n.rc := x;
    }

    // ---------- Heights and rotations ----------

    /** avl_inbf */
    static function AvlInbf(node: Node, ghost l: Tree<Node>, ghost r: Tree<Node>): (bf: int)
      reads node, Nodes(l), Nodes(r)
      requires Linked(l, node.lc, node) && Linked(r, node.rc, node)
      ensures bf == H(l) - H(r)
    {
      (if node.lc != null then node.lc.subth else 0) - (if node.rc != null then node.rc.subth else 0)
    }

    /** avl_rfh: refresh the height; report whether the climb must go on. */
    static method AvlRfh(node: Node, ghost l: Tree<Node>, ghost r: Tree<Node>) returns (changed: bool)
      requires Linked(l, node.lc, node) && Linked(r, node.rc, node)
      modifies node`subth
      ensures node.subth == Mk(l, node, r).h
      ensures changed <==> !Settled(l, old(node.subth), r)
    {
      var oldh := node.subth;
      var lch := if node.lc != null then node.lc.subth else 0;
      var rch := if node.rc != null then node.rc.subth else 0;
      node.subth := if lch > rch then lch + 1 else rch + 1;
      changed := lch - rch > 1 || lch - rch < -1 || oldh != node.subth;
    }

    /** avl_rfh leaves a node with the right height over its two subtrees. */
    static method Refresh(n: Node, ghost l: Tree<Node>, ghost r: Tree<Node>)
      requires Linked(l, n.lc, n) && Linked(r, n.rc, n) && n !in Nodes(l) && n !in Nodes(r)
      modifies n`subth
      ensures Linked(Mk(l, n, r), n, n.f)
    {
      assert allocated(Nodes(l)) && allocated(Nodes(r));
      var _ := AvlRfh(n, l, r);
    }

    /** Two nodes and three subtrees that share nothing. */
    static ghost predicate Apart(n: Node, m: Node, a: Tree<Node>, b: Tree<Node>, c: Tree<Node>) {
      && n != m && n !in Nodes(a) + Nodes(b) + Nodes(c) && m !in Nodes(a) + Nodes(b) + Nodes(c)
      && Nodes(a) !! Nodes(b) && Nodes(a) !! Nodes(c) && Nodes(b) !! Nodes(c) && Distinct(b)
    }

    /** Give the subtree below `x`, if any, the father `f`. */
    static method Rehang(x: Node?, f: Node?, ghost b: Tree<Node>, ghost oldf: Node?)
      requires Linked(b, x, oldf) && Distinct(b)
      modifies Nodes(b)
      ensures Linked(b, x, f)
    {
      assert allocated(Nodes(b));
      if x != null {
        assert allocated(Nodes(b.l)) && allocated(Nodes(b.r));
        x.f := f;
      }
    }

    /** The pointer updates of avl_lr up to the final store. */
    static method TurnLeft(n: Node, ghost t: Tree<Node>) returns (rc: Node)
      requires t.Fork? && t.r.Fork? && t.n == n && Linked(t, n, n.f) && Distinct(t)
      modifies Nodes(t)
      ensures rc == RotL(t).n && Linked(RotL(t), rc, old(n.f))
    {
      ghost var a, b, c := t.l, t.r.l, t.r.r;
      assert allocated(Nodes(a)) && allocated(Nodes(b)) && allocated(Nodes(c));
      rc := n.rc;
      assert Nodes(t) == Nodes(a) + {n} + Nodes(t.r) && Nodes(t.r) == Nodes(b) + {rc} + Nodes(c);
      assert Distinct(t.r) && Apart(n, rc, a, b, c);
      rc.f := n.f;
      n.f := rc;
      n.rc := rc.lc;
      Rehang(n.rc, n, b, rc);
      SettleLeft(n, rc, a, b, c);
    }

    /** The rest of avl_lr: refresh the lowered node, hang it on the raised one, refresh that. */
    static method SettleLeft(n: Node, rc: Node, ghost a: Tree<Node>, ghost b: Tree<Node>, ghost c: Tree<Node>)
      requires Apart(n, rc, a, b, c) && n.f == rc
      requires Linked(a, n.lc, n) && Linked(b, n.rc, n) && Linked(c, rc.rc, rc)
      modifies n, rc
      ensures Linked(Mk(Mk(a, n, b), rc, c), rc, old(rc.f))
    {
      assert allocated(Nodes(a)) && allocated(Nodes(b)) && allocated(Nodes(c));
      Refresh(n, a, b);
      ghost var left := Mk(a, n, b);
      assert allocated(Nodes(left)) && Nodes(left) == Nodes(a) + {n} + Nodes(b);
      rc.lc := n;
      Refresh(rc, left, c);
    }

    static method TurnRight(n: Node, ghost t: Tree<Node>) returns (lc: Node)
      requires t.Fork? && t.l.Fork? && t.n == n && Linked(t, n, n.f) && Distinct(t)
      modifies Nodes(t)
      ensures lc == RotR(t).n && Linked(RotR(t), lc, old(n.f))
    {
      ghost var a, b, c := t.l.l, t.l.r, t.r;
      assert allocated(Nodes(a)) && allocated(Nodes(b)) && allocated(Nodes(c));
      lc := n.lc;
      assert Nodes(t) == Nodes(t.l) + {n} + Nodes(c) && Nodes(t.l) == Nodes(a) + {lc} + Nodes(b);
      assert Distinct(t.l) && Apart(n, lc, a, b, c);
      lc.f := n.f;
      n.f := lc;
      n.lc := lc.rc;
      Rehang(n.lc, n, b, lc);
      SettleRight(n, lc, a, b, c);
    }

    /** The rest of avl_rr. */
    static method SettleRight(n: Node, lc: Node, ghost a: Tree<Node>, ghost b: Tree<Node>, ghost c: Tree<Node>)
      requires Apart(n, lc, a, b, c) && n.f == lc
      requires Linked(a, lc.lc, lc) && Linked(b, n.lc, n) && Linked(c, n.rc, n)
      modifies n, lc
      ensures Linked(Mk(a, lc, Mk(b, n, c)), lc, old(lc.f))
    {
      assert allocated(Nodes(a)) && allocated(Nodes(b)) && allocated(Nodes(c));
      Refresh(n, b, c);
      ghost var right := Mk(b, n, c);
      assert allocated(Nodes(right)) && Nodes(right) == Nodes(b) + {n} + Nodes(c);
      lc.rc := n;
      Refresh(lc, a, right);
    }

    /** avl_lr */
    method AvlLr(opn: Slot, ghost p: Path<Node>, ghost t: Tree<Node>)
      requires At(p, t) && opn == SlotOf(p) && t.Fork? && t.r.Fork?
      modifies this`root, Nodes(t), if p.Top? then {} else {p.n}
      ensures At(p, RotL(t))
    {
      assert allocated(Nodes(t)) && allocated(PathNodes(p));
      var n := Load(opn, p, t);
      var rc := TurnLeft(n, t);
      assert Around(p, n);
      RotLShape(t);
      assert allocated(Nodes(RotL(t)));
      Store(opn, rc, p, t);
    }

    /** avl_rr */
    method AvlRr(opn: Slot, ghost p: Path<Node>, ghost t: Tree<Node>)
      requires At(p, t) && opn == SlotOf(p) && t.Fork? && t.l.Fork?
      modifies this`root, Nodes(t), if p.Top? then {} else {p.n}
      ensures At(p, RotR(t))
    {
      assert allocated(Nodes(t)) && allocated(PathNodes(p));
      var n := Load(opn, p, t);
      var lc := TurnRight(n, t);
      assert Around(p, n);
      RotRShape(t);
      assert allocated(Nodes(RotR(t)));
      Store(opn, lc, p, t);
    }

    // ---------- avl_ab ----------

    /** The slot a node hangs from, found through its father. */
    function SlotOfNode(cn: Node, ghost p: Path<Node>, ghost t: Tree<Node>): (s: Slot)
      reads this`root, PathNodes(p), Nodes(t)
      requires At(p, t) && t.Fork? && cn == t.n
      ensures s == SlotOf(p)
    {
      assert p.InRight? && p.l.Fork? ==> p.l.n in PathNodes(p);
      if cn.f == null then RootSlot
      else if cn.f.lc == cn then LcOf(cn.f) else RcOf(cn.f)
    }

    /** The branch of avl_ab for a right-heavy node. */
    method BalanceRightHeavy(cn: Node, ghost p: Path<Node>, ghost l: Tree<Node>, ghost h: nat, ghost r: Tree<Node>)
      requires At(p, Fork(l, cn, h, r)) && r.Fork?
      modifies this`root, Nodes(Fork(l, cn, h, r)), if p.Top? then {} else {p.n}
      ensures At(p, RotL(Fork(l, cn, h, LeanRight(r))))
    {
      ghost var q := InRight(p, l, cn, h);
      FocusRight(p, l, cn, h, r);
      assert cn in PathNodes(q);
      if AvlInbf(cn.rc, r.l, r.r) > 0 {
        AvlRr(RcOf(cn), q, r);
      }
      ghost var r' := LeanRight(r);
      LeanInorder(r);
      assert At(q, r');
      FocusRight(p, l, cn, h, r');
      ghost var t := Fork(l, cn, h, r');
      assert Nodes(t) == Nodes(Fork(l, cn, h, r));
      var cnp := SlotOfNode(cn, p, t);
      AvlLr(cnp, p, t);
    }

    /** The branch of avl_ab for a left-heavy node. */
    method BalanceLeftHeavy(cn: Node, ghost p: Path<Node>, ghost l: Tree<Node>, ghost h: nat, ghost r: Tree<Node>)
      requires At(p, Fork(l, cn, h, r)) && l.Fork?
      modifies this`root, Nodes(Fork(l, cn, h, r)), if p.Top? then {} else {p.n}
      ensures At(p, RotR(Fork(LeanLeft(l), cn, h, r)))
    {
      ghost var q := InLeft(p, cn, h, r);
      FocusLeft(p, l, cn, h, r);
      assert cn in PathNodes(q);
      if AvlInbf(cn.lc, l.l, l.r) < 0 {
        AvlLr(LcOf(cn), q, l);
      }
      ghost var l' := LeanLeft(l);
      LeanInorder(l);
      assert At(q, l');
      FocusLeft(p, l', cn, h, r);
      ghost var t := Fork(l', cn, h, r);
      assert Nodes(t) == Nodes(Fork(l, cn, h, r));
      var cnp := SlotOfNode(cn, p, t);
      AvlRr(cnp, p, t);
    }

    /** One round of the loop of avl_ab at `wln`: refresh its height, and unless that settles it, rotate. */
    method ClimbRound(wln: Node, ghost up: Path<Node>, ghost l: Tree<Node>, ghost h: nat, ghost r: Tree<Node>)
      returns (changed: bool, next: Node?)
      requires At(up, Fork(l, wln, h, r))
      modifies this`root, Nodes(Fork(l, wln, h, r)), if up.Top? then {} else {up.n}
      ensures changed <==> !Settled(l, h, r)
      ensures next == Father(up)
      ensures At(up, if changed then Fix(l, wln, r) else Fork(l, wln, h, r))
    {
      ghost var t := Mk(l, wln, r);
      assert allocated(Nodes(l)) && allocated(Nodes(r)) && allocated(PathNodes(up));
      assert Nodes(t) == Nodes(Fork(l, wln, h, r));
      changed := AvlRfh(wln, l, r);
      assert Linked(l, wln.lc, wln) && Linked(r, wln.rc, wln) && Around(up, wln);
      next := wln.f;
      if changed {
        assert At(up, t);
        var bf := AvlInbf(wln, l, r);
        if bf < -1 {
          BalanceRightHeavy(wln, up, l, t.h, r);
        } else if bf > 1 {
          BalanceLeftHeavy(wln, up, l, t.h, r);
        }
      }
    }

    /** The same round seen from the changed child subtree `t`. */
    method PathRound(wln: Node, ghost p: Path<Node>, ghost t: Tree<Node>)
      returns (changed: bool, next: Node?, ghost t': Tree<Node>)
      requires At(p, t) && !p.Top? && wln == p.n
      modifies this`root, PathNodes(p) + Nodes(t)
      ensures !changed ==> At(Top, Climb(p, t))
      ensures changed ==> At(p.up, t') && next == Father(p.up) && Climb(p, t) == Climb(p.up, t')
      ensures changed ==> PathNodes(p.up) + Nodes(t') == PathNodes(p) + Nodes(t)
    {
      ghost var up, h := p.up, p.h;
      ghost var l, r := if p.InLeft? then t else p.l, if p.InLeft? then p.r else t;
      if p.InLeft? { FocusLeft(up, l, wln, h, r); } else { FocusRight(up, l, wln, h, r); }
      FixInorder(l, wln, r);
      assert up.Top? || up.n in PathNodes(up);
      changed, next := ClimbRound(wln, up, l, h, r);
      t' := Fix(l, wln, r);
      if !changed {
        JoinTop(up);
        Refocus(up, Top, Fork(l, wln, h, r));
      }
    }

    /** avl_ab: climb from `cn`, whose child subtree `t` was replaced, to a settled node or the root. */
    method AvlAb(cn: Node?, ghost p: Path<Node>, ghost t: Tree<Node>)
      requires At(p, t) && cn == Father(p)
      modifies this`root, PathNodes(p) + Nodes(t)
      ensures At(Top, Climb(p, t))
    {
      ghost var all, goal := PathNodes(p) + Nodes(t), Climb(p, t);
      assert allocated(PathNodes(p)) && allocated(Nodes(t));
      var wln := cn;
      ghost var p', t' := p, t;
      while wln != null
        invariant At(p', t') && wln == Father(p')
        invariant Climb(p', t') == goal
        invariant PathNodes(p') + Nodes(t') == all
        decreases p'
      {
        var changed, next, t1 := PathRound(wln, p', t');
        if !changed { return; }
        p', t' := p'.up, t1;
        wln := next;
      }
    }

    // ---------- Removal ----------

    ghost predicate Valid()
      reads this, Nodes(t)
    {
      At(Top, t) && Avl(t)
    }

    /** avl_ndcut: a node with at most one child is replaced by it; its own fields stay as they are. */
    method AvlNdcut(rmnode: Node, ghost p: Path<Node>, ghost l: Tree<Node>, ghost h: nat, ghost r: Tree<Node>)
      requires At(p, Fork(l, rmnode, h, r)) && (l.Leaf? || r.Leaf?)
      modifies this`root, Nodes(l) + Nodes(r), if p.Top? then {} else {p.n}
      ensures At(p, if l.Leaf? then r else l)
    {
      ghost var t, t' := Fork(l, rmnode, h, r), if l.Leaf? then r else l;
      assert allocated(Nodes(t)) && allocated(Nodes(t')) && allocated(PathNodes(p));
      var slot := SlotOfNode(rmnode, p, t);
      var nc := if rmnode.lc == null then rmnode.rc else rmnode.lc;
      assert Linked(l, rmnode.lc, rmnode) && Linked(r, rmnode.rc, rmnode);
      Rehang(nc, rmnode.f, t', rmnode);
      assert Linked(t', nc, Father(p)) && Around(p, rmnode);
      Store(slot, nc, p, t);
    }

    /** avl_remove copies the tree fields of `rmnode` into `rmpos` and hands it the children. */
    static method CopyLinks(rmnode: Node, rmpos: Node, ghost l: Tree<Node>, ghost r: Tree<Node>)
      requires Linked(l, rmnode.lc, rmnode) && Linked(r, rmnode.rc, rmnode) && Distinct(l) && Distinct(r)
      requires Nodes(l) !! Nodes(r) && rmpos !in Nodes(l) + Nodes(r) && rmnode !in Nodes(l) + Nodes(r)
      modifies rmpos, Nodes(l) + Nodes(r)
      ensures Linked(l, rmpos.lc, rmpos) && Linked(r, rmpos.rc, rmpos)
      ensures rmpos.f == old(rmnode.f) && rmpos.subth == old(rmnode.subth)
    {
      assert allocated(Nodes(l)) && allocated(Nodes(r));
      rmpos.f := rmnode.f;
      rmpos.lc := rmnode.lc;
      rmpos.rc := rmnode.rc;
      rmpos.subth := rmnode.subth;
      assert Linked(l, rmpos.lc, rmnode) && Linked(r, rmpos.rc, rmnode);
      Rehang(rmpos.lc, rmpos, l, rmnode);
      assert Linked(r, rmpos.rc, rmnode);
      Rehang(rmpos.rc, rmpos, r, rmnode);
    }

    /** The part of avl_remove that seats `rmpos` where `rmnode` was. */
    method Substitute(rmnode: Node, rmpos: Node, ghost p: Path<Node>,
                      ghost l: Tree<Node>, ghost h: nat, ghost r: Tree<Node>)
      requires At(p, Fork(l, rmnode, h, r))
      requires rmpos !in Nodes(Fork(l, rmnode, h, r)) && rmpos !in PathNodes(p)
      modifies this`root, rmpos, Nodes(l) + Nodes(r), if p.Top? then {} else {p.n}
      ensures At(p, Fork(l, rmpos, h, r))
    {
      ghost var t := Fork(l, rmnode, h, r);
      assert allocated(Nodes(l)) && allocated(Nodes(r)) && allocated(PathNodes(p));
      var slot := SlotOfNode(rmnode, p, t);
      CopyLinks(rmnode, rmpos, l, r);
      assert Around(p, rmnode);
      Store(slot, rmpos, p, t);
      assert Linked(l, rmpos.lc, rmpos) && Linked(r, rmpos.rc, rmpos);
    }

    /** The two-child case of avl_remove after the search: cut `rmpos` out, then seat it in place of `rmnode`. */
    method Relink(rmnode: Node, rmpos: Node, ghost left: bool, ghost p: Path<Node>, ghost l: Tree<Node>, ghost h: nat,
                  ghost r: Tree<Node>, ghost q: Path<Node>, ghost s: Tree<Node>) returns (rbpos: Node)
      requires s.Fork? && rmpos == s.n && (s.l.Leaf? || s.r.Leaf?)
      requires At(Join(q, Side(left, p, l, rmnode, h, r)), s) && Plug(q, s) == if left then l else r
      modifies this`root, Nodes(l) + Nodes(r) + {rmnode} + PathNodes(p)
      ensures var p' := Join(q, Side(left, p, l, rmpos, h, r));
        At(p', if s.l.Leaf? then s.r else s.l) && rbpos == Father(p')
    {
      ghost var s' := if s.l.Leaf? then s.r else s.l;
      ghost var side := Side(left, p, l, rmnode, h, r);
      PlugNodes(q, s);
      PathNodesJoin(q, side);
      rbpos := rmpos.f;
      if rbpos == rmnode {
        rbpos := rmpos;
      }
      assert q.Top? <==> rbpos == rmpos by { assert !q.Top? ==> q.n in PathNodes(q); }
      AvlNdcut(rmpos, Join(q, side), s.l, s.h, s.r);
      Refocus(q, side, s');
      PlugNodes(q, s');
      ghost var l', r' := if left then Plug(q, s') else l, if left then r else Plug(q, s');
      if left { FocusLeft(p, l', rmnode, h, r'); } else { FocusRight(p, l', rmnode, h, r'); }
      Substitute(rmnode, rmpos, p, l', h, r');
      if left { FocusLeft(p, l', rmpos, h, r'); } else { FocusRight(p, l', rmpos, h, r'); }
      Refocus(q, Side(left, p, l, rmpos, h, r), s');
    }

    /** The search of avl_remove: the last node below the left child, or the first below the right one. */
    method FindSubstitute(rmnode: Node, ghost p: Path<Node>, ghost l: Tree<Node>, ghost h: nat, ghost r: Tree<Node>)
      returns (rmpos: Node, ghost left: bool, ghost q: Path<Node>, ghost s: Tree<Node>)
      requires At(p, Fork(l, rmnode, h, r)) && l.Fork? && r.Fork?
      ensures left == (H(l) > H(r))
      ensures s.Fork? && rmpos == s.n && Plug(q, s) == if left then l else r
      ensures if left then s.r.Leaf? && After(q) == [] else s.l.Leaf? && Before(q) == []
      ensures At(Join(q, Side(left, p, l, rmnode, h, r)), s)
    {
      q := Top;
      assert Linked(l, rmnode.lc, rmnode) && Linked(r, rmnode.rc, rmnode);
      if rmnode.lc.subth > rmnode.rc.subth {
        left, s := true, l;
        ghost var side := InLeft(p, rmnode, h, r);
        FocusLeft(p, l, rmnode, h, r);
        rmpos := rmnode.lc;
        while rmpos.rc != null
          invariant At(Join(q, side), s) && s.Fork? && rmpos == s.n && Plug(q, s) == l && After(q) == []
          decreases s
        {
          FocusRight(Join(q, side), s.l, s.n, s.h, s.r);
          q, s := InRight(q, s.l, s.n, s.h), s.r;
          rmpos := rmpos.rc;
        }
        assert Linked(s.r, rmpos.rc, rmpos);
      } else {
        left, s := false, r;
        ghost var side := InRight(p, l, rmnode, h);
        FocusRight(p, l, rmnode, h, r);
        rmpos := rmnode.rc;
        while rmpos.lc != null
          invariant At(Join(q, side), s) && s.Fork? && rmpos == s.n && Plug(q, s) == r && Before(q) == []
          decreases s
        {
          FocusLeft(Join(q, side), s.l, s.n, s.h, s.r);
          q, s := InLeft(q, s.n, s.h, s.r), s.l;
          rmpos := rmpos.lc;
        }
        assert Linked(s.l, rmpos.lc, rmpos);
      }
    }

    /** Everything avl_remove does before rebalancing; `p` and `s` focus on the subtree that shrank. */
    method CutOut(rmnode: Node, ghost p0: Path<Node>, ghost l: Tree<Node>, ghost h: nat, ghost r: Tree<Node>)
      returns (rbpos: Node?, ghost p: Path<Node>, ghost s: Tree<Node>)
      requires At(p0, Fork(l, rmnode, h, r)) && Avl(Plug(p0, Fork(l, rmnode, h, r)))
      modifies this`root, Nodes(Fork(l, rmnode, h, r)) + PathNodes(p0)
      ensures At(p, s) && rbpos == Father(p) && Avl(Climb(p, s))
      ensures Inorder(Climb(p, s)) == Before(p0) + Inorder(l) + Inorder(r) + After(p0)
      ensures Nodes(Plug(p, s)) == Nodes(l) + Nodes(r) + PathNodes(p0)
    {
      assert Linked(l, rmnode.lc, rmnode) && Linked(r, rmnode.rc, rmnode);
      if rmnode.lc != null && rmnode.rc != null {
        var rmpos, left, q, b := FindSubstitute(rmnode, p0, l, h, r);
        RelinkResult(left, p0, l, rmnode, h, r, q, b);
        RelinkNodes(left, p0, l, rmnode, h, r, q, b);
        rbpos := Relink(rmnode, rmpos, left, p0, l, h, r, q, b);
        p, s := Join(q, Side(left, p0, l, rmpos, h, r)), if b.l.Leaf? then b.r else b.l;
      } else {
        rbpos := rmnode.f;
        CutResult(p0, l, rmnode, h, r);
        AvlNdcut(rmnode, p0, l, h, r);
        p, s := p0, if l.Leaf? then r else l;
        PlugNodes(p0, s);
      }
    }

    /** avl_remove; `cmp` is any comparator the tree was built with, which removal never asks. */
    method AvlRemove(rmnode: Node, ghost cmp: Comparator)
      requires Valid() && rmnode in Nodes(t)
      modifies this, Nodes(t)
      ensures Valid()
      ensures Ordered(cmp, old(Inorder(t))) ==> Ordered(cmp, Inorder(t))
      ensures Dropped(old(Inorder(t)), Inorder(t), rmnode)
      ensures Nodes(t) == old(Nodes(t)) - {rmnode}
    {
      ghost var p0, sub := Locate(t, rmnode);
      ghost var l, r := sub.l, sub.r;
      JoinTop(p0);
      Refocus(p0, Top, sub);
      PlugNodes(p0, sub);
      var rbpos, p, s := CutOut(rmnode, p0, l, sub.h, r);
      PlugNodes(p, s);
      AvlAb(rbpos, p, s);
      t := Climb(p, s);
      RemovedOne(old(t), t, p0, l, rmnode, sub.h, r);
      if Ordered(cmp, Inorder(old(t))) { OrderedDropped(cmp, Inorder(old(t)), Inorder(t), rmnode); }
    }

    // ---------- Insertion and lookup ----------

    /** The descent of avl_insert to an empty slot; it fails at the first node that is not beside the key. */
    method FindSlot(cmp: Comparator, p: Span)
      returns (free: bool, cnp: Slot, cn: Node?, ghost q: Path<Node>, ghost steps: nat)
      requires Valid() && Laws(cmp) && Ordered(cmp, Inorder(t))
      ensures free ==> At(q, Leaf) && cnp == SlotOf(q) && cn == Father(q) && Plug(q, Leaf) == t && Belongs(cmp, q, p)
      ensures !free ==> exists m :: m in Nodes(t) && !Beside(cmp, m.key, p)
      ensures steps <= H(t)
    {
      cnp, cn, q, steps := RootSlot, null, Top, 0;
      ghost var s := t;
      while true
        invariant At(q, s) && cnp == SlotOf(q) && cn == Father(q)
        invariant Plug(q, s) == t && Avl(s) && Belongs(cmp, q, p) && Ordered(cmp, Inorder(s))
        invariant steps + H(s) <= H(t)
        decreases s
      {
        var cur := Load(cnp, q, s);
        if cur == null { return true, cnp, cn, q, steps; }
        cn := cur;
        ghost var l, h, r := s.l, s.h, s.r;
        steps := steps + 1;
        match cmp(cn.key, p) {
          case Less =>
            cnp := RcOf(cn);
            FocusRight(q, l, cn, h, r);
            DescendRight(cmp, q, l, cn, h, r, p);
            q, s := InRight(q, l, cn, h), r;
          case Greater =>
            cnp := LcOf(cn);
            FocusLeft(q, l, cn, h, r);
            DescendLeft(cmp, q, l, cn, h, r, p);
            q, s := InLeft(q, cn, h, r), l;
          case _ =>
            PlugNodes(q, s);
            assert cn in Nodes(t) && !Beside(cmp, cn.key, p);
            free := false;
            return;
        }
      }
    }

    /** avl_insert; `p` is what the new node's container compares as. */
    method AvlInsert(newnode: Node, cmp: Comparator, p: Span) returns (ret: int, ghost steps: nat)
      requires Valid() && Laws(cmp) && Ordered(cmp, Inorder(t))
      requires newnode !in Nodes(t) && newnode.key == p
      modifies this, Nodes(t), newnode
      ensures Valid() && Ordered(cmp, Inorder(t))
      ensures ret == 0 || ret == -1
      ensures ret == -1 <==> exists m :: m in old(Nodes(t)) && !Beside(cmp, m.key, p)
      ensures ret == -1 ==> t == old(t)
      ensures ret == 0 ==> Dropped(Inorder(t), old(Inorder(t)), newnode) && Nodes(t) == old(Nodes(t)) + {newnode}
      ensures steps <= H(old(t))
    {
      assert allocated(Nodes(t));
      var free, cnp, cn, q, n := FindSlot(cmp, p);
      steps := n;
      if !free { return -1, steps; }
      InsertAt(newnode, cnp, cn, cmp, q);
      ret := 0;
    }

    /** avl_insert once the empty slot is found. */
    method InsertAt(newnode: Node, cnp: Slot, cn: Node?, ghost cmp: Comparator, ghost q: Path<Node>)
      requires Valid() && t == Plug(q, Leaf) && newnode !in Nodes(t)
      requires At(q, Leaf) && cnp == SlotOf(q) && cn == Father(q)
      requires Laws(cmp) && Ordered(cmp, Inorder(t)) && Belongs(cmp, q, newnode.key)
      modifies this, Nodes(t), newnode
      ensures Valid() && Ordered(cmp, Inorder(t))
      ensures Dropped(Inorder(t), old(Inorder(t)), newnode) && Nodes(t) == old(Nodes(t)) + {newnode}
      ensures forall m :: m in old(Nodes(t)) ==> Beside(cmp, m.key, newnode.key)
    {
      assert allocated(Nodes(t));
      ghost var leaf := Fork(Leaf, newnode, 1, Leaf);
      PlugNodes(q, Leaf);
      PlugNodes(q, leaf);
      InsertOutcome(cmp, q, t, newnode);
      Graft(newnode, cnp, cn, q);
      t := Climb(q, leaf);
    }

    /** avl_insert hangs the new node into the empty slot it found. */
    method PlaceLeaf(newnode: Node, cnp: Slot, cn: Node?, ghost q: Path<Node>)
      requires At(q, Leaf) && cnp == SlotOf(q) && cn == Father(q) && newnode !in PathNodes(q)
      modifies this`root, newnode, if q.Top? then {} else {q.n}
      ensures At(q, Fork(Leaf, newnode, 1, Leaf))
    {
      assert allocated(PathNodes(q));
      Store(cnp, newnode, q, Leaf);
      newnode.f := cn;
      newnode.lc, newnode.rc := null, null;
      newnode.subth := 1;
    }

    /** The second half of avl_insert: hang the leaf, then rebalance from its father. */
    method Graft(newnode: Node, cnp: Slot, cn: Node?, ghost q: Path<Node>)
      requires At(q, Leaf) && cnp == SlotOf(q) && cn == Father(q) && newnode !in PathNodes(q)
      modifies this`root, newnode, PathNodes(q)
      ensures At(Top, Climb(q, Fork(Leaf, newnode, 1, Leaf)))
    {
      PlaceLeaf(newnode, cnp, cn, q);
      AvlAb(cn, q, Fork(Leaf, newnode, 1, Leaf));
    }

    static lemma InsertOutcome(cmp: Comparator, q: Path<Node>, t: Tree<Node>, n: Node)
      requires t == Plug(q, Leaf) && Avl(t) && Distinct(t) && n !in Nodes(t)
      requires Laws(cmp) && Ordered(cmp, Inorder(t)) && Belongs(cmp, q, n.key)
      ensures var t' := Climb(q, Fork(Leaf, n, 1, Leaf));
        && Avl(t') && Ordered(cmp, Inorder(t')) && Dropped(Inorder(t'), Inorder(t), n)
        && Nodes(t') == Nodes(t) + {n}
      ensures forall m :: m in Nodes(t) ==> Beside(cmp, m.key, n.key)
    {
      var t' := Climb(q, Fork(Leaf, n, 1, Leaf));
      InsertResult(q, t, n);
      OrderedInsert(cmp, Before(q), n, After(q));
      InsertMembers(t, t', Before(q), n, After(q));
      assert allocated(Nodes(t));
      forall m | m in Nodes(t) ensures Beside(cmp, m.key, n.key) {
        InorderMember(t, m);
        assert m in Before(q) || m in After(q);
      }
    }

    /** One more element in the order is one more node. */
    static lemma InsertMembers(t: Tree<Node>, t': Tree<Node>, a: seq<Node>, n: Node, b: seq<Node>)
      requires Distinct(t) && n !in Nodes(t)
      requires Inorder(t') == a + [n] + b && Inorder(t) == a + b
      ensures Dropped(Inorder(t'), Inorder(t), n) && Nodes(t') == Nodes(t) + {n}
    {
      DroppedMiddle(Inorder(t'), Inorder(t), a, n, b);
      Members(a, n, b);
      InorderMember(t, n);
      InorderMember(t', n);
      OrderToNodes(t', t, n);
    }

    /** avl_lkup: a node whose range holds the queried one, found on a single path. */
    method AvlLkup(cmp: Comparator, p: Span) returns (found: Node?, ghost steps: nat)
      requires Valid() && Laws(cmp) && Ordered(cmp, Inorder(t))
      ensures found != null ==> found in Nodes(t) && Holds(cmp, found.key, p)
      ensures found == null <==> !exists m :: m in Nodes(t) && Holds(cmp, m.key, p)
      ensures steps <= H(t)
    {
      var x := root;
      ghost var q: Path<Node>, s: Tree<Node> := Top, t;
      steps := 0;
      while x != null
        invariant At(q, s) && x == Head(s)
        invariant Plug(q, s) == t && Avl(s) && Belongs(cmp, q, p) && Ordered(cmp, Inorder(s))
        invariant steps + H(s) <= H(t)
        decreases s
      {
        ghost var l, h, r := s.l, s.h, s.r;
        steps := steps + 1;
        match cmp(x.key, p) {
          case Less =>
            FocusRight(q, l, x, h, r);
            DescendRight(cmp, q, l, x, h, r, p);
            q, s := InRight(q, l, x, h), r;
            x := x.rc;
          case Greater =>
            FocusLeft(q, l, x, h, r);
            DescendLeft(cmp, q, l, x, h, r, p);
            q, s := InLeft(q, x, h, r), l;
            x := x.lc;
          case Contains => found := x; PlugNodes(q, s); return;
          case Equal => found := x; PlugNodes(q, s); return;
          case _ =>
            NoHolder(cmp, q, s, p);
            found := null;
            return;
        }
      }
      NoHolder(cmp, q, s, p);
      found := null;
    }

    // ---------- Walks ----------

    /** avl_walk; `calls` are the nodes `op` was called on, in order. */
    static method AvlWalk(x: Node?, wt: Walk, op: Node -> int, ghost s: Tree<Node>, ghost f: Node?)
      returns (ret: int, calls: seq<Node>)
      requires Linked(s, x, f) && Avl(s)
      requires forall n :: n in Nodes(s) ==> op(n) == 0 || op(n) == -1
      ensures ret == Verdict(Visit(s, wt), op) && calls == UpToStop(Visit(s, wt), op)
      decreases s, 1
    {
      if x == null { return 0, []; }
      if x.subth == 1 {
        HeightZero(s.l);
        HeightZero(s.r);
        assert Visit(s, wt) == [s.n];
        return op(x), [x];
      }
      match wt {
        case LMR => ret, calls := WalkLeftFirst(x, wt, op, s);
        case LRM => ret, calls := WalkLeftFirst(x, wt, op, s);
        case MLR => ret, calls := WalkMiddleFirst(x, wt, op, s);
        case MRL => ret, calls := WalkMiddleFirst(x, wt, op, s);
        case RLM => ret, calls := WalkRightFirst(x, wt, op, s);
        case RML => ret, calls := WalkRightFirst(x, wt, op, s);
      }
    }

    /** The branches of avl_walk for LMR and LRM. */
    static method WalkLeftFirst(n: Node, wt: Walk, op: Node -> int, ghost s: Tree<Node>)
      returns (ret: int, calls: seq<Node>)
      requires Linked(s, n, n.f) && Avl(s) && s.Fork? && (wt == LMR || wt == LRM)
      requires forall n :: n in Nodes(s) ==> op(n) == 0 || op(n) == -1
      ensures ret == Verdict(Visit(s, wt), op) && calls == UpToStop(Visit(s, wt), op)
      decreases s, 0
    {
      ghost var a, b := Visit(s.l, wt), Visit(s.r, wt);
      assert allocated(Nodes(s.l)) && allocated(Nodes(s.r));
      assert n in Nodes(s);
      StopOne(n, op);
      if wt == LMR { StopSplit3(a, [n], b, op); } else { StopSplit3(a, b, [n], op); }
      var rest;
      ret, calls := AvlWalk(n.lc, wt, op, s.l, n);
      if ret == -1 { return; }
      if wt == LMR {
        calls := calls + [n];
        if op(n) == -1 { return -1, calls; }
        ret, rest := AvlWalk(n.rc, wt, op, s.r, n);
        calls := calls + rest;
        if ret == -1 { return; }
      } else {
        ret, rest := AvlWalk(n.rc, wt, op, s.r, n);
        calls := calls + rest;
        if ret == -1 { return; }
        calls := calls + [n];
        if op(n) == -1 { return -1, calls; }
      }
      ret := 0;
    }

    /** The branches of avl_walk for MLR and MRL. */
    static method WalkMiddleFirst(n: Node, wt: Walk, op: Node -> int, ghost s: Tree<Node>)
      returns (ret: int, calls: seq<Node>)
      requires Linked(s, n, n.f) && Avl(s) && s.Fork? && (wt == MLR || wt == MRL)
      requires forall n :: n in Nodes(s) ==> op(n) == 0 || op(n) == -1
      ensures ret == Verdict(Visit(s, wt), op) && calls == UpToStop(Visit(s, wt), op)
      decreases s, 0
    {
      ghost var a, b := Visit(s.l, wt), Visit(s.r, wt);
      assert allocated(Nodes(s.l)) && allocated(Nodes(s.r));
      assert n in Nodes(s);
      StopOne(n, op);
      if wt == MLR { StopSplit3([n], a, b, op); } else { StopSplit3([n], b, a, op); }
      var rest;
      calls := [n];
      if op(n) == -1 { return -1, calls; }
      if wt == MLR {
        ret, rest := AvlWalk(n.lc, wt, op, s.l, n);
        calls := calls + rest;
        if ret == -1 { return; }
        ret, rest := AvlWalk(n.rc, wt, op, s.r, n);
        calls := calls + rest;
        if ret == -1 { return; }
      } else {
        ret, rest := AvlWalk(n.rc, wt, op, s.r, n);
        calls := calls + rest;
        if ret == -1 { return; }
        ret, rest := AvlWalk(n.lc, wt, op, s.l, n);
        calls := calls + rest;
        if ret == -1 { return; }
      }
      ret := 0;
    }

    /** The branches of avl_walk for RLM and RML. */
    static method WalkRightFirst(n: Node, wt: Walk, op: Node -> int, ghost s: Tree<Node>)
      returns (ret: int, calls: seq<Node>)
      requires Linked(s, n, n.f) && Avl(s) && s.Fork? && (wt == RLM || wt == RML)
      requires forall n :: n in Nodes(s) ==> op(n) == 0 || op(n) == -1
      ensures ret == Verdict(Visit(s, wt), op) && calls == UpToStop(Visit(s, wt), op)
      decreases s, 0
    {
      ghost var a, b := Visit(s.l, wt), Visit(s.r, wt);
      assert allocated(Nodes(s.l)) && allocated(Nodes(s.r));
      assert n in Nodes(s);
      StopOne(n, op);
      if wt == RLM { StopSplit3(b, a, [n], op); } else { StopSplit3(b, [n], a, op); }
      var rest;
      ret, calls := AvlWalk(n.rc, wt, op, s.r, n);
      if ret == -1 { return; }
      if wt == RLM {
        ret, rest := AvlWalk(n.lc, wt, op, s.l, n);
        calls := calls + rest;
        if ret == -1 { return; }
        calls := calls + [n];
        if op(n) == -1 { return -1, calls; }
      } else {
        calls := calls + [n];
        if op(n) == -1 { return -1, calls; }
        ret, rest := AvlWalk(n.lc, wt, op, s.l, n);
        calls := calls + rest;
        if ret == -1 { return; }
      }
      ret := 0;
    }
  }
}

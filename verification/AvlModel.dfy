/** AVL trees as values: stored heights, rotations, and the bottom-up repair along a path to the root. */
module AvlModel {

  /** A tree whose nodes carry the height stored in them, right or stale. */
  datatype Tree<T> = Leaf | Fork(l: Tree<T>, n: T, h: nat, r: Tree<T>)

  /** The path from a hole up to the root. */
  datatype Path<T> =
    | Top
    | InLeft(up: Path<T>, n: T, h: nat, r: Tree<T>)
    | InRight(up: Path<T>, l: Tree<T>, n: T, h: nat)

  function H<T>(t: Tree<T>): nat {
    if t.Leaf? then 0 else t.h
  }

  function Max(a: nat, b: nat): nat {
    if a > b then a else b
  }

  ghost function Nodes<T>(t: Tree<T>): set<T> {
    match t
    case Leaf => {}
    case Fork(l, n, _, r) => Nodes(l) + {n} + Nodes(r)
  }

  ghost function PathNodes<T>(p: Path<T>): set<T> {
    match p
    case Top => {}
    case InLeft(up, n, _, r) => {n} + Nodes(r) + PathNodes(up)
    case InRight(up, l, n, _) => Nodes(l) + {n} + PathNodes(up)
  }

  function Inorder<T>(t: Tree<T>): seq<T> {
    match t
    case Leaf => []
    case Fork(l, n, _, r) => Inorder(l) + [n] + Inorder(r)
  }

  /** What precedes and follows the hole of a path in order. */
  function Before<T>(p: Path<T>): seq<T> {
    match p
    case Top => []
    case InLeft(up, _, _, _) => Before(up)
    case InRight(up, l, n, _) => Before(up) + (Inorder(l) + [n])
  }

  function After<T>(p: Path<T>): seq<T> {
    match p
    case Top => []
    case InLeft(up, n, _, r) => ([n] + Inorder(r)) + After(up)
    case InRight(up, _, _, _) => After(up)
  }

  function Plug<T>(p: Path<T>, t: Tree<T>): Tree<T>
    decreases p
  {
    match p
    case Top => t
    case InLeft(up, n, h, r) => Plug(up, Fork(t, n, h, r))
    case InRight(up, l, n, h) => Plug(up, Fork(l, n, h, t))
  }

  ghost predicate Distinct<T>(t: Tree<T>) {
    t.Fork? ==>
      && Distinct(t.l) && Distinct(t.r) && Nodes(t.l) !! Nodes(t.r)
      && t.n !in Nodes(t.l) && t.n !in Nodes(t.r)
  }

  ghost predicate PathDistinct<T>(p: Path<T>) {
    match p
    case Top => true
    case InLeft(up, n, _, r) =>
      Distinct(r) && n !in Nodes(r) && n !in PathNodes(up) && Nodes(r) !! PathNodes(up) && PathDistinct(up)
    case InRight(up, l, n, _) =>
      Distinct(l) && n !in Nodes(l) && n !in PathNodes(up) && Nodes(l) !! PathNodes(up) && PathDistinct(up)
  }

  predicate Near(a: nat, b: nat) {
    a <= b + 1 && b <= a + 1
  }

  /** Every stored height is exact and siblings differ by at most one. */
  ghost predicate Avl<T>(t: Tree<T>) {
    t.Fork? ==> Avl(t.l) && Avl(t.r) && Near(H(t.l), H(t.r)) && t.h == 1 + Max(H(t.l), H(t.r))
  }

  /** The path would complete a subtree of stored height `c` to a correct tree. */
  ghost predicate PathAvl<T>(p: Path<T>, c: nat) {
    match p
    case Top => true
    case InLeft(up, _, h, r) => Avl(r) && Near(c, H(r)) && h == 1 + Max(c, H(r)) && PathAvl(up, h)
    case InRight(up, l, _, h) => Avl(l) && Near(H(l), c) && h == 1 + Max(H(l), c) && PathAvl(up, h)
  }

  // ---------- Rotations and repair ----------

  /** A node with its height refreshed. */
  function Mk<T>(l: Tree<T>, n: T, r: Tree<T>): Tree<T> {
    Fork(l, n, 1 + Max(H(l), H(r)), r)
  }

  function RotL<T>(t: Tree<T>): Tree<T>
    requires t.Fork? && t.r.Fork?
  {
    Mk(Mk(t.l, t.n, t.r.l), t.r.n, t.r.r)
  }

  function RotR<T>(t: Tree<T>): Tree<T>
    requires t.Fork? && t.l.Fork?
  {
    Mk(t.l.l, t.l.n, Mk(t.l.r, t.n, t.r))
  }

  /** The inner rotation of a double rotation, taken when the tall child leans inwards. */
  function LeanRight<T>(r: Tree<T>): Tree<T>
    requires r.Fork?
  {
    if H(r.l) > H(r.r) then RotR(r) else r
  }

  function LeanLeft<T>(l: Tree<T>): Tree<T>
    requires l.Fork?
  {
    if H(l.l) < H(l.r) then RotL(l) else l
  }

  /** One node repaired: rotated when its children differ by more than one, refreshed otherwise. */
  function Fix<T>(l: Tree<T>, n: T, r: Tree<T>): Tree<T> {
    var t := Mk(l, n, r);
    if H(l) + 1 < H(r) then RotL(Fork(l, n, t.h, LeanRight(r)))
    else if H(r) + 1 < H(l) then RotR(Fork(LeanLeft(l), n, t.h, r))
    else t
  }

  /** avl_rfh reports nothing to do: balanced, and the stored height was already right. */
  predicate Settled<T>(l: Tree<T>, h: nat, r: Tree<T>) {
    Near(H(l), H(r)) && h == 1 + Max(H(l), H(r))
  }

  /** avl_ab: repair upwards from the hole until a settled node or the root. */
  function Climb<T>(p: Path<T>, t: Tree<T>): Tree<T>
    decreases p
  {
    match p
    case Top => t
    case InLeft(up, n, h, r) =>
      if Settled(t, h, r) then Plug(up, Fork(t, n, h, r)) else Climb(up, Fix(t, n, r))
    case InRight(up, l, n, h) =>
      if Settled(l, h, t) then Plug(up, Fork(l, n, h, t)) else Climb(up, Fix(l, n, t))
  }

  // ---------- In-order sequence ----------

  lemma {:induction false} PlugInorder<T>(p: Path<T>, t: Tree<T>)
    ensures Inorder(Plug(p, t)) == Before(p) + Inorder(t) + After(p)
    decreases p
  {
    match p {
      case Top =>
      case InLeft(up, n, h, r) =>
        PlugInorder(up, Fork(t, n, h, r));
      case InRight(up, l, n, h) =>
        PlugInorder(up, Fork(l, n, h, t));
    }
  }

  lemma FixInorder<T>(l: Tree<T>, n: T, r: Tree<T>)
    ensures Inorder(Fix(l, n, r)) == Inorder(l) + [n] + Inorder(r)
    ensures Nodes(Fix(l, n, r)) == Nodes(l) + {n} + Nodes(r)
  {
    if H(l) + 1 < H(r) {
      LeanInorder(r);
      var t := Fork(l, n, Mk(l, n, r).h, LeanRight(r));
      RotLInorder(t);
      assert Inorder(t) == Inorder(l) + [n] + Inorder(r);
    } else if H(r) + 1 < H(l) {
      LeanInorder(l);
      var t := Fork(LeanLeft(l), n, Mk(l, n, r).h, r);
      RotRInorder(t);
      assert Inorder(t) == Inorder(l) + [n] + Inorder(r);
    }
  }

  lemma Regroup<E>(a: seq<E>, b: seq<E>, c: seq<E>, d: seq<E>, e: seq<E>)
    ensures (a + b + c) + d + e == a + b + (c + d + e)
  {
  }

  lemma RotLInorder<T>(t: Tree<T>)
    requires t.Fork? && t.r.Fork?
    ensures Inorder(RotL(t)) == Inorder(t) && Nodes(RotL(t)) == Nodes(t)
  {
    Regroup(Inorder(t.l), [t.n], Inorder(t.r.l), [t.r.n], Inorder(t.r.r));
  }

  lemma RotRInorder<T>(t: Tree<T>)
    requires t.Fork? && t.l.Fork?
    ensures Inorder(RotR(t)) == Inorder(t) && Nodes(RotR(t)) == Nodes(t)
  {
    Regroup(Inorder(t.l.l), [t.l.n], Inorder(t.l.r), [t.n], Inorder(t.r));
  }

  lemma RotLShape<T>(t: Tree<T>)
    requires t.Fork? && t.r.Fork? && Distinct(t)
    ensures Distinct(RotL(t)) && Nodes(RotL(t)) == Nodes(t)
  {
    assert Nodes(t.r) == Nodes(t.r.l) + {t.r.n} + Nodes(t.r.r);
  }

  lemma RotRShape<T>(t: Tree<T>)
    requires t.Fork? && t.l.Fork? && Distinct(t)
    ensures Distinct(RotR(t)) && Nodes(RotR(t)) == Nodes(t)
  {
    assert Nodes(t.l) == Nodes(t.l.l) + {t.l.n} + Nodes(t.l.r);
  }

  lemma LeanInorder<T>(t: Tree<T>)
    requires t.Fork?
    ensures Inorder(LeanRight(t)) == Inorder(t) && Nodes(LeanRight(t)) == Nodes(t)
    ensures Inorder(LeanLeft(t)) == Inorder(t) && Nodes(LeanLeft(t)) == Nodes(t)
  {
    if t.l.Fork? { RotRInorder(t); }
    if t.r.Fork? { RotLInorder(t); }
  }

  /** The repair never changes the order of the nodes. */
  lemma {:induction false} ClimbInorder<T>(p: Path<T>, t: Tree<T>)
    ensures Inorder(Climb(p, t)) == Before(p) + Inorder(t) + After(p)
    decreases p
  {
    match p {
      case Top =>
      case InLeft(up, n, h, r) =>
        FixInorder(t, n, r);
        Surround(Before(up), Inorder(t), [n] + Inorder(r), After(up));
        if Settled(t, h, r) { PlugInorder(p, t); } else { ClimbInorder(up, Fix(t, n, r)); }
      case InRight(up, l, n, h) =>
        FixInorder(l, n, t);
        Surround(Before(up), Inorder(l) + [n], Inorder(t), After(up));
        if Settled(l, h, t) { PlugInorder(p, t); } else { ClimbInorder(up, Fix(l, n, t)); }
    }
  }

  lemma Surround<E>(a: seq<E>, b: seq<E>, c: seq<E>, d: seq<E>)
    ensures a + (b + c) + d == a + b + (c + d) && a + (b + c) + d == (a + b) + c + d
    ensures forall x, y :: c == [x] + y ==> b + c == b + [x] + y
  {
  }

  // ---------- Balance ----------

  /** A node whose correct subtrees differ by at most two becomes a correct subtree, of nearly the same height. */
  lemma FixAvl<T>(l: Tree<T>, n: T, r: Tree<T>)
    requires Avl(l) && Avl(r) && H(l) <= H(r) + 2 && H(r) <= H(l) + 2
    ensures Avl(Fix(l, n, r)) && Fix(l, n, r).Fork?
    ensures var m := Max(H(l), H(r));
      if Near(H(l), H(r)) then H(Fix(l, n, r)) == m + 1 else m <= H(Fix(l, n, r)) <= m + 1
  {
    if H(l) + 1 < H(r) {
      FixRightHeavy(l, n, r);
    } else if H(r) + 1 < H(l) {
      FixLeftHeavy(l, n, r);
    }
  }

  lemma FixRightHeavy<T>(l: Tree<T>, n: T, r: Tree<T>)
    requires Avl(l) && Avl(r) && H(r) == H(l) + 2
    ensures Avl(Fix(l, n, r)) && Fix(l, n, r).Fork? && H(r) <= H(Fix(l, n, r)) <= H(r) + 1
  {
    LeanRightAvl(r);
    var r' := LeanRight(r);
    assert Avl(Mk(l, n, r'.l));
  }

  lemma FixLeftHeavy<T>(l: Tree<T>, n: T, r: Tree<T>)
    requires Avl(l) && Avl(r) && H(l) == H(r) + 2
    ensures Avl(Fix(l, n, r)) && Fix(l, n, r).Fork? && H(l) <= H(Fix(l, n, r)) <= H(l) + 1
  {
    LeanLeftAvl(l);
    var l' := LeanLeft(l);
    assert Avl(Mk(l'.r, n, r));
  }

  /** A tall right child, once made to lean outwards, can go to the top of a left rotation. */
  lemma LeanRightAvl<T>(r: Tree<T>)
    requires r.Fork? && Avl(r) && r.h >= 2
    ensures var r' := LeanRight(r);
      && r'.Fork? && Avl(r'.l) && Avl(r'.r) && H(r'.r) == r.h - 1 && H(r'.l) <= r.h - 1
      && r.h <= H(r'.l) + 3
  {
    HeightZero(r.l);
    if H(r.l) > H(r.r) { assert Avl(r.l); }
  }

  lemma LeanLeftAvl<T>(l: Tree<T>)
    requires l.Fork? && Avl(l) && l.h >= 2
    ensures var l' := LeanLeft(l);
      && l'.Fork? && Avl(l'.l) && Avl(l'.r) && H(l'.l) == l.h - 1 && H(l'.r) <= l.h - 1
      && l.h <= H(l'.r) + 3
  {
    HeightZero(l.r);
    if H(l.l) < H(l.r) { assert Avl(l.r); }
  }

  lemma HeightZero<T>(t: Tree<T>)
    requires Avl(t)
    ensures H(t) == 0 <==> t.Leaf?
  {
  }

  lemma {:induction false} PlugAvl<T>(p: Path<T>, t: Tree<T>)
    requires Avl(t) && PathAvl(p, H(t))
    ensures Avl(Plug(p, t))
    decreases p
  {
    match p {
      case Top =>
      case InLeft(up, n, h, r) => PlugAvl(up, Fork(t, n, h, r));
      case InRight(up, l, n, h) => PlugAvl(up, Fork(l, n, h, t));
    }
  }

  /** The path was right for a subtree one level higher or lower: climbing repairs the whole tree, and
      stopping at the first settled node is sound. */
  lemma {:induction false} ClimbAvl<T>(p: Path<T>, t: Tree<T>, c: nat)
    requires Avl(t) && PathAvl(p, c) && Near(H(t), c)
    ensures Avl(Climb(p, t))
    decreases p
  {
    match p {
      case Top =>
      case InLeft(up, n, h, r) =>
        if Settled(t, h, r) {
          PlugAvl(up, Fork(t, n, h, r));
        } else {
          FixAvl(t, n, r);
          ClimbAvl(up, Fix(t, n, r), h);
        }
      case InRight(up, l, n, h) =>
        if Settled(l, h, t) {
          PlugAvl(up, Fork(l, n, h, t));
        } else {
          FixAvl(l, n, t);
          ClimbAvl(up, Fix(l, n, t), h);
        }
    }
  }

  /** The height of a path's hole in a correct tree. */
  lemma {:induction false} UnplugAvl<T>(p: Path<T>, t: Tree<T>)
    requires Avl(Plug(p, t))
    ensures Avl(t) && PathAvl(p, H(t))
    decreases p
  {
    match p {
      case Top =>
      case InLeft(up, n, h, r) => UnplugAvl(up, Fork(t, n, h, r));
      case InRight(up, l, n, h) => UnplugAvl(up, Fork(l, n, h, t));
    }
  }

  // ---------- Paths in two pieces ----------

  /** Path `q` continued by path `p`. */
  function Join<T>(q: Path<T>, p: Path<T>): Path<T> {
    match q
    case Top => p
    case InLeft(up, n, h, r) => InLeft(Join(up, p), n, h, r)
    case InRight(up, l, n, h) => InRight(Join(up, p), l, n, h)
  }

  lemma {:induction false} JoinSides<T>(q: Path<T>, p: Path<T>)
    ensures Before(Join(q, p)) == Before(p) + Before(q) && After(Join(q, p)) == After(q) + After(p)
  {
    match q {
      case Top =>
      case InLeft(up, n, _, r) =>
        JoinSides(up, p);
        Reassociate([n] + Inorder(r), After(up), After(p));
      case InRight(up, l, n, _) =>
        JoinSides(up, p);
        Reassociate(Before(p), Before(up), Inorder(l) + [n]);
    }
  }

  lemma {:induction false} PlugNodes<T>(p: Path<T>, t: Tree<T>)
    ensures Nodes(Plug(p, t)) == PathNodes(p) + Nodes(t)
    decreases p
  {
    match p {
      case Top =>
      case InLeft(up, n, h, r) => PlugNodes(up, Fork(t, n, h, r));
      case InRight(up, l, n, h) => PlugNodes(up, Fork(l, n, h, t));
    }
  }

  lemma {:induction false} PathNodesJoin<T>(q: Path<T>, p: Path<T>)
    ensures PathNodes(Join(q, p)) == PathNodes(q) + PathNodes(p)
    ensures PathDistinct(Join(q, p)) ==> PathDistinct(q) && PathNodes(q) !! PathNodes(p)
  {
    match q {
      case Top =>
      case InLeft(up, _, _, _) => PathNodesJoin(up, p);
      case InRight(up, _, _, _) => PathNodesJoin(up, p);
    }
  }

  lemma {:induction false} JoinTop<T>(p: Path<T>)
    ensures Join(p, Top) == p
  {
    match p {
      case Top =>
      case InLeft(up, _, _, _) => JoinTop(up);
      case InRight(up, _, _, _) => JoinTop(up);
    }
  }

  lemma {:induction false} PlugJoin<T>(q: Path<T>, p: Path<T>, t: Tree<T>)
    ensures Plug(Join(q, p), t) == Plug(p, Plug(q, t))
    decreases q
  {
    match q {
      case Top =>
      case InLeft(up, n, h, r) => PlugJoin(up, p, Fork(t, n, h, r));
      case InRight(up, l, n, h) => PlugJoin(up, p, Fork(l, n, h, t));
    }
  }

  /** Whether a path is right depends on its lower piece and on what its upper piece accepts. */
  lemma {:induction false} JoinAvl<T>(q: Path<T>, p: Path<T>, p': Path<T>, c: nat)
    requires PathAvl(Join(q, p), c) && forall d :: PathAvl(p, d) ==> PathAvl(p', d)
    ensures PathAvl(Join(q, p'), c)
  {
    match q {
      case Top =>
      case InLeft(up, n, h, r) => JoinAvl(up, p, p', h);
      case InRight(up, l, n, h) => JoinAvl(up, p, p', h);
    }
  }

  ghost predicate NoRepeats<E>(s: seq<E>) {
    forall i, j :: 0 <= i < j < |s| ==> s[i] != s[j]
  }

  lemma Members<E>(a: seq<E>, n: E, b: seq<E>)
    ensures forall x :: x in a + [n] + b <==> x in a || x == n || x in b
    ensures forall x :: x in a + b <==> x in a || x in b
  {
  }

  /** A list around a middle element repeats nothing exactly when its parts do not and share nothing. */
  lemma RepeatsSplit<E>(a: seq<E>, n: E, b: seq<E>)
    ensures NoRepeats(a + [n] + b) <==>
      NoRepeats(a) && NoRepeats(b) && n !in a && n !in b && forall x :: x in a ==> x !in b
  {
    var s := a + [n] + b;
    assert s[|a|] == n;
    assert forall i :: 0 <= i < |a| ==> s[i] == a[i];
    assert forall i :: 0 <= i < |b| ==> s[|a| + 1 + i] == b[i];
    if NoRepeats(s) {
      assert forall i :: 0 <= i < |b| ==> b[i] == s[|a| + 1 + i];
    } else if NoRepeats(a) && NoRepeats(b) {
      var i, j :| 0 <= i < j < |s| && s[i] == s[j];
      if i < |a| {
        assert s[i] in a;
        if j > |a| { assert s[j] == b[j - |a| - 1] && s[j] in b; }
      } else {
        assert s[j] == b[j - |a| - 1] && s[j] in b;
      }
    }
  }

  lemma {:induction false} InorderMember<T>(t: Tree<T>, n: T)
    ensures n in Inorder(t) <==> n in Nodes(t)
  {
    if t.Fork? {
      InorderMember(t.l, n);
      InorderMember(t.r, n);
      Members(Inorder(t.l), t.n, Inorder(t.r));
    }
  }

  lemma {:induction false} InorderNodes<T>(t: Tree<T>)
    ensures forall n :: n in Inorder(t) <==> n in Nodes(t)
    ensures Distinct(t) ==> NoRepeats(Inorder(t))
  {
    forall n ensures n in Inorder(t) <==> n in Nodes(t) { InorderMember(t, n); }
    if t.Fork? {
      InorderNodes(t.l);
      InorderNodes(t.r);
      var a, b := Inorder(t.l), Inorder(t.r);
      forall x | x in a ensures Distinct(t) ==> x !in b {
        InorderMember(t.l, x);
        InorderMember(t.r, x);
      }
      InorderMember(t.l, t.n);
      InorderMember(t.r, t.n);
      RepeatsSplit(a, t.n, b);
    }
  }

  // ---------- Removal ----------

  /** Where a node sits in a tree. */
  lemma {:induction false} Locate<T>(t: Tree<T>, n: T) returns (p: Path<T>, s: Tree<T>)
    requires n in Nodes(t)
    ensures Plug(p, s) == t && s.Fork? && s.n == n
  {
    if t.n == n {
      return Top, t;
    } else if n in Nodes(t.l) {
      var q, s' := Locate(t.l, n);
      p, s := Join(q, InLeft(Top, t.n, t.h, t.r)), s';
      PlugJoin(q, InLeft(Top, t.n, t.h, t.r), s);
    } else {
      var q, s' := Locate(t.r, n);
      p, s := Join(q, InRight(Top, t.l, t.n, t.h)), s';
      PlugJoin(q, InRight(Top, t.l, t.n, t.h), s);
    }
  }

  /** Seen from one of its subtrees: the path through a node. */
  function Side<T>(left: bool, p: Path<T>, l: Tree<T>, n: T, h: nat, r: Tree<T>): Path<T> {
    if left then InLeft(p, n, h, r) else InRight(p, l, n, h)
  }

  /** A node with at most one child is cut out. */
  lemma CutResult<T>(p: Path<T>, l: Tree<T>, n: T, h: nat, r: Tree<T>)
    requires Avl(Plug(p, Fork(l, n, h, r))) && (l.Leaf? || r.Leaf?)
    ensures var t' := Climb(p, if l.Leaf? then r else l);
      Avl(t') && Inorder(t') == Before(p) + Inorder(l) + Inorder(r) + After(p)
  {
    var s := if l.Leaf? then r else l;
    UnplugAvl(p, Fork(l, n, h, r));
    HeightZero(l);
    HeightZero(r);
    ClimbAvl(p, s, h);
    ClimbInorder(p, s);
    assert Inorder(s) == Inorder(l) + Inorder(r);
    Surround(Before(p), Inorder(l), Inorder(r), After(p));
  }

  /** A node with two children gives its place to the last node of the left subtree, or the first of the right. */
  lemma RelinkResult<T>(left: bool, p: Path<T>, l: Tree<T>, n: T, h: nat, r: Tree<T>, q: Path<T>, s: Tree<T>)
    requires Avl(Plug(p, Fork(l, n, h, r))) && s.Fork? && Plug(q, s) == if left then l else r
    requires if left then s.r.Leaf? && After(q) == [] else s.l.Leaf? && Before(q) == []
    ensures var t' := Climb(Join(q, Side(left, p, l, s.n, h, r)), if s.l.Leaf? then s.r else s.l);
      Avl(t') && Inorder(t') == Before(p) + Inorder(l) + Inorder(r) + After(p)
  {
    RelinkAvl(left, p, l, n, h, r, q, s);
    if left { RelinkLeftInorder(p, l, s.n, h, r, q, s); } else { RelinkRightInorder(p, l, s.n, h, r, q, s); }
  }

  lemma RelinkLeftInorder<T>(p: Path<T>, l: Tree<T>, m: T, h: nat, r: Tree<T>, q: Path<T>, s: Tree<T>)
    requires s.Fork? && s.r.Leaf? && s.n == m && Plug(q, s) == l && After(q) == []
    ensures Inorder(Climb(Join(q, InLeft(p, m, h, r)), if s.l.Leaf? then s.r else s.l))
         == Before(p) + Inorder(l) + Inorder(r) + After(p)
  {
    var now, c := InLeft(p, m, h, r), Inorder(s.l);
    ClimbInorder(Join(q, now), if s.l.Leaf? then s.r else s.l);
    JoinSides(q, now);
    PlugInorder(q, s);
    assert Inorder(s) == c + [m];
    assert Inorder(l) == Before(q) + c + [m] by { assert Before(q) + (c + [m]) + [] == Before(q) + c + [m]; }
    RelinkLeft(Before(p), Before(q), c, [m], Inorder(r), After(p));
  }

  lemma RelinkRightInorder<T>(p: Path<T>, l: Tree<T>, m: T, h: nat, r: Tree<T>, q: Path<T>, s: Tree<T>)
    requires s.Fork? && s.l.Leaf? && s.n == m && Plug(q, s) == r && Before(q) == []
    ensures Inorder(Climb(Join(q, InRight(p, l, m, h)), s.r)) == Before(p) + Inorder(l) + Inorder(r) + After(p)
  {
    var now, c, aq := InRight(p, l, m, h), Inorder(s.r), After(q);
    var bp, il, ap := Before(p), Inorder(l), After(p);
    PlugInorder(q, s);
    assert Inorder(s) == [m] + c;
    assert Inorder(r) == [m] + c + aq;
    calc {
      Inorder(Climb(Join(q, now), s.r));
      { ClimbInorder(Join(q, now), s.r); }
      Before(Join(q, now)) + c + After(Join(q, now));
      { JoinSides(q, now); }
      ((bp + (il + [m])) + []) + c + (aq + ap);
      { RelinkRight(bp, il, [m], c, aq, ap); }
      bp + il + ([m] + c + aq) + ap;
    }
  }

  lemma RelinkAvl<T>(left: bool, p: Path<T>, l: Tree<T>, n: T, h: nat, r: Tree<T>, q: Path<T>, s: Tree<T>)
    requires Avl(Plug(p, Fork(l, n, h, r))) && s.Fork? && Plug(q, s) == if left then l else r
    requires s.l.Leaf? || s.r.Leaf?
    ensures Avl(Climb(Join(q, Side(left, p, l, s.n, h, r)), if s.l.Leaf? then s.r else s.l))
  {
    var was, now := Side(left, p, l, n, h, r), Side(left, p, l, s.n, h, r);
    PlugJoin(q, was, s);
    UnplugAvl(Join(q, was), s);
    JoinAvl(q, was, now, s.h);
    HeightZero(s.l);
    HeightZero(s.r);
    ClimbAvl(Join(q, now), if s.l.Leaf? then s.r else s.l, s.h);
  }

  lemma RelinkLeft<E>(a: seq<E>, b: seq<E>, c: seq<E>, m: seq<E>, d: seq<E>, e: seq<E>)
    ensures (a + b) + c + ([] + ((m + d) + e)) == a + (b + c + m) + d + e
  {
  }

  lemma RelinkRight<E>(a: seq<E>, b: seq<E>, m: seq<E>, c: seq<E>, d: seq<E>, e: seq<E>)
    ensures ((a + (b + m)) + []) + c + (d + e) == a + b + (m + c + d) + e
  {
  }

  /** Relinking leaves exactly the removed node out. */
  lemma RelinkNodes<T>(left: bool, p: Path<T>, l: Tree<T>, n: T, h: nat, r: Tree<T>, q: Path<T>, s: Tree<T>)
    requires s.Fork? && Plug(q, s) == (if left then l else r) && (s.l.Leaf? || s.r.Leaf?)
    ensures Nodes(Plug(Join(q, Side(left, p, l, s.n, h, r)), if s.l.Leaf? then s.r else s.l))
         == Nodes(l) + Nodes(r) + PathNodes(p)
  {
    PlugNodes(q, s);
    PathNodesJoin(q, Side(left, p, l, s.n, h, r));
    PlugNodes(Join(q, Side(left, p, l, s.n, h, r)), if s.l.Leaf? then s.r else s.l);
  }

  /** One element less. */
  ghost predicate Dropped<E>(s: seq<E>, s': seq<E>, n: E) {
    exists k :: 0 <= k < |s| && s[k] == n && s' == s[..k] + s[k + 1..]
  }

  lemma DroppedMiddle<E>(s: seq<E>, s': seq<E>, a: seq<E>, n: E, b: seq<E>)
    requires s == a + [n] + b && s' == a + b
    ensures Dropped(s, s', n)
    ensures NoRepeats(s) ==> forall m :: m in s' <==> m in s && m != n
  {
    var k := |a|;
    assert s[k] == n && s[..k] == a && s[k + 1..] == b;
    RepeatsSplit(a, n, b);
    Members(a, n, b);
  }

  lemma RemovedOrder<T>(t: Tree<T>, s': seq<T>, p: Path<T>, l: Tree<T>, n: T, h: nat, r: Tree<T>)
    requires t == Plug(p, Fork(l, n, h, r)) && s' == Before(p) + Inorder(l) + Inorder(r) + After(p)
    ensures Dropped(Inorder(t), s', n)
    ensures NoRepeats(Inorder(t)) ==> forall m :: m in s' <==> m in Inorder(t) && m != n
  {
    PlugInorder(p, Fork(l, n, h, r));
    var bp, il, ir, ap := Before(p), Inorder(l), Inorder(r), After(p);
    DropShape(bp, il, [n], ir, ap);
    DroppedMiddle(Inorder(t), s', bp + il, n, ir + ap);
  }

  lemma OrderToNodes<T>(t: Tree<T>, t': Tree<T>, n: T)
    requires forall m :: m in Inorder(t') <==> m in Inorder(t) && m != n
    ensures Nodes(t') == Nodes(t) - {n}
  {
    var before, after := Nodes(t), Nodes(t');
    assert allocated(before) && allocated(after);
    forall m ensures m in after <==> m in before - {n} {
      InorderMember(t, m);
      InorderMember(t', m);
      assert m in Inorder(t') <==> m in Inorder(t) && m != n;
    }
    assert after == before - {n};
  }

  /** Dropping one node from the order drops exactly it from the node set. */
  lemma RemovedOne<T>(t: Tree<T>, t': Tree<T>, p: Path<T>, l: Tree<T>, n: T, h: nat, r: Tree<T>)
    requires Distinct(t) && t == Plug(p, Fork(l, n, h, r))
    requires Inorder(t') == Before(p) + Inorder(l) + Inorder(r) + After(p)
    ensures Dropped(Inorder(t), Inorder(t'), n) && Nodes(t') == Nodes(t) - {n}
  {
    RemovedOrder(t, Inorder(t'), p, l, n, h, r);
    InorderNodes(t);
    OrderToNodes(t, t', n);
  }

  lemma DropShape<E>(a: seq<E>, b: seq<E>, c: seq<E>, d: seq<E>, e: seq<E>)
    ensures a + (b + c + d) + e == (a + b) + c + (d + e)
    ensures a + b + d + e == (a + b) + (d + e)
  {
  }

  /** A new leaf in the hole of a correct tree. */
  lemma InsertResult<T>(p: Path<T>, t: Tree<T>, n: T)
    requires t == Plug(p, Leaf) && Avl(t)
    ensures var t' := Climb(p, Fork(Leaf, n, 1, Leaf));
      Avl(t') && Inorder(t') == Before(p) + [n] + After(p) && Inorder(t) == Before(p) + After(p)
  {
    var leaf: Tree<T> := Fork(Leaf, n, 1, Leaf);
    UnplugAvl(p, Leaf);
    ClimbAvl(p, leaf, 0);
    ClimbInorder(p, leaf);
    PlugInorder(p, Leaf);
    LeafOrders(Before(p), n, After(p));
  }

  lemma LeafOrders<T>(a: seq<T>, n: T, b: seq<T>)
    ensures a + Inorder(Fork(Leaf, n, 1, Leaf)) + b == a + [n] + b && a + Inorder(Leaf) + b == a + b
  {
    assert Inorder(Fork(Leaf, n, 1, Leaf)) == [n];
    assert a + [] == a;
  }

  // ---------- Height against size ----------

  function Fib(n: nat): nat {
    if n < 2 then n else Fib(n - 1) + Fib(n - 2)
  }

  lemma {:induction false} FibGrows(m: nat, n: nat)
    requires m <= n
    ensures Fib(m) <= Fib(n)
    decreases n
  {
    if m < n {
      FibGrows(m, n - 1);
    }
  }

  /** A correct tree of height h holds at least Fib(h + 2) - 1 nodes. */
  lemma {:induction false} HeightBound<T>(t: Tree<T>)
    requires Avl(t)
    ensures Fib(H(t) + 2) <= |Inorder(t)| + 1
  {
    if t.Fork? {
      HeightBound(t.l);
      HeightBound(t.r);
      var a, b := H(t.l), H(t.r);
      FibGrows(t.h, a + 2);
      FibGrows(t.h, b + 2);
      assert Fib(t.h + 2) == Fib(t.h + 1) + Fib(t.h);
    }
  }

  /** Fib grows by half every step, so the height is logarithmic in the node count. */
  lemma {:induction false} FibDoubles(k: nat)
    ensures Fib(2 * k + 2) >= Pow(2, k)
  {
    if k > 0 {
      FibDoubles(k - 1);
      FibGrows(2 * k, 2 * k + 1);
    }
  }

  function Pow(b: nat, e: nat): nat {
    if e == 0 then 1 else b * Pow(b, e - 1)
  }

  /** The height of a correct tree is at most about twice the binary logarithm of its size. */
  lemma HeightLogarithmic<T>(t: Tree<T>)
    requires Avl(t)
    ensures Pow(2, H(t) / 2) <= |Inorder(t)| + 1
  {
    HeightBound(t);
    HeightToSize(H(t), |Inorder(t)| + 1);
  }

  lemma HeightToSize(h: nat, size: nat)
    requires Fib(h + 2) <= size
    ensures Pow(2, h / 2) <= size
  {
    FibBeatsPow(h);
  }

  lemma FibBeatsPow(h: nat)
    ensures Pow(2, h / 2) <= Fib(h + 2)
  {
    var k := h / 2;
    FibDoubles(k);
    FibGrows(2 * k + 2, h + 2);
  }

  // ---------- Walks ----------

  /** avlwt_t */
  datatype Walk = LMR | LRM | MLR | MRL | RLM | RML

  function Visit<T>(t: Tree<T>, wt: Walk): seq<T> {
    match t
    case Leaf => []
    case Fork(l, n, _, r) =>
      var a, b := Visit(l, wt), Visit(r, wt);
      match wt
      case LMR => a + [n] + b
      case LRM => a + b + [n]
      case MLR => [n] + a + b
      case MRL => [n] + b + a
      case RLM => b + a + [n]
      case RML => b + [n] + a
  }

  /** Every order visits every node exactly as often as it occurs. */
  lemma {:induction false} VisitsAll<T>(t: Tree<T>, wt: Walk)
    ensures multiset(Visit(t, wt)) == multiset(Inorder(t))
  {
    if t.Fork? {
      VisitsAll(t.l, wt);
      VisitsAll(t.r, wt);
    }
  }

  function Reverse<E>(s: seq<E>): seq<E> {
    if s == [] then [] else Reverse(s[1..]) + [s[0]]
  }

  lemma {:induction false} ReverseConcat<E>(a: seq<E>, b: seq<E>)
    ensures Reverse(a + b) == Reverse(b) + Reverse(a)
  {
    if a == [] {
      assert a + b == b;
    } else {
      ReverseConcat(a[1..], b);
      assert (a + b)[1..] == a[1..] + b;
    }
  }

  /** LMR is the search order and RML its reverse. */
  lemma {:induction false} AscendingAndDescending<T>(t: Tree<T>)
    ensures Visit(t, LMR) == Inorder(t) && Visit(t, RML) == Reverse(Inorder(t))
  {
    if t.Fork? {
      AscendingAndDescending(t.l);
      AscendingAndDescending(t.r);
      ReverseConcat(Inorder(t.l) + [t.n], Inorder(t.r));
      ReverseConcat(Inorder(t.l), [t.n]);
      assert Reverse([t.n]) == [t.n];
    }
  }

  /** What the other orders are: the node before both subtrees, or after both; and their reverses. */
  lemma {:induction false} RootFirstOrLast<T>(t: Tree<T>)
    requires t.Fork?
    ensures Visit(t, MLR) == [t.n] + (Visit(t.l, MLR) + Visit(t.r, MLR))
    ensures Visit(t, LRM) == Visit(t.l, LRM) + Visit(t.r, LRM) + [t.n]
    ensures Visit(t, RLM) == Reverse(Visit(t, MLR)) && Visit(t, MRL) == Reverse(Visit(t, LRM))
  {
    ReversedOrders(t);
    assert [t.n] + Visit(t.l, MLR) + Visit(t.r, MLR) == [t.n] + (Visit(t.l, MLR) + Visit(t.r, MLR));
  }

  lemma {:induction false} ReversedOrders<T>(t: Tree<T>)
    ensures Visit(t, RLM) == Reverse(Visit(t, MLR)) && Visit(t, MRL) == Reverse(Visit(t, LRM))
  {
    if t.Fork? {
      ReversedOrders(t.l);
      ReversedOrders(t.r);
      var l, r, l', r' := Visit(t.l, MLR), Visit(t.r, MLR), Visit(t.l, LRM), Visit(t.r, LRM);
      ReverseConcat([t.n] + l, r);
      ReverseConcat([t.n], l);
      ReverseConcat(l' + r', [t.n]);
      ReverseConcat(l', r');
      assert Reverse([t.n]) == [t.n];
      Reassociate(Reverse(r), Reverse(l), [t.n]);
      Reassociate([t.n], Reverse(r'), Reverse(l'));
    }
  }

  /** The calls made before the walk ends: up to and including the first that asks to stop. */
  function UpToStop<T>(s: seq<T>, op: T -> int): seq<T> {
    if s == [] then []
    else if op(s[0]) == -1 then [s[0]]
    else [s[0]] + UpToStop(s[1..], op)
  }

  function Verdict<T>(s: seq<T>, op: T -> int): (v: int)
    ensures v == 0 || v == -1
  {
    if s == [] then 0 else if op(s[0]) == -1 then -1 else Verdict(s[1..], op)
  }

  lemma StopHead<T>(x: T, s: seq<T>, op: T -> int)
    ensures UpToStop([x] + s, op) == if op(x) == -1 then [x] else [x] + UpToStop(s, op)
    ensures Verdict([x] + s, op) == if op(x) == -1 then -1 else Verdict(s, op)
  {
    assert ([x] + s)[1..] == s;
  }

  lemma {:induction false} StopSplit<T>(a: seq<T>, b: seq<T>, op: T -> int)
    ensures Verdict(a + b, op) == if Verdict(a, op) == -1 then -1 else Verdict(b, op)
    ensures UpToStop(a + b, op) == UpToStop(a, op) + if Verdict(a, op) == -1 then [] else UpToStop(b, op)
    decreases |a|
  {
    if a == [] {
      assert a + b == b;
    } else {
      StopSplit(a[1..], b, op);
      StopCons(a[0], a[1..], b, op);
      assert a == [a[0]] + a[1..];
    }
  }

  /** One more element in front of both sides. */
  lemma StopCons<T>(x: T, a: seq<T>, b: seq<T>, op: T -> int)
    requires Verdict(a + b, op) == if Verdict(a, op) == -1 then -1 else Verdict(b, op)
    requires UpToStop(a + b, op) == UpToStop(a, op) + if Verdict(a, op) == -1 then [] else UpToStop(b, op)
    ensures var c := [x] + a;
      && Verdict(c + b, op) == (if Verdict(c, op) == -1 then -1 else Verdict(b, op))
      && UpToStop(c + b, op) == UpToStop(c, op) + if Verdict(c, op) == -1 then [] else UpToStop(b, op)
  {
    assert ([x] + a) + b == [x] + (a + b);
    StopHead(x, a, op);
    StopHead(x, a + b, op);
    if op(x) != -1 {
      Reassociate([x], UpToStop(a, op), if Verdict(a, op) == -1 then [] else UpToStop(b, op));
    }
  }

  lemma Reassociate<E>(a: seq<E>, b: seq<E>, c: seq<E>)
    ensures a + (b + c) == (a + b) + c
  {
  }

  lemma StopOne<T>(n: T, op: T -> int)
    ensures UpToStop([n], op) == [n] && Verdict([n], op) == if op(n) == -1 then -1 else 0
  {
    assert [n][1..] == [];
  }

  /** The three parts of a visit, one after the other. */
  lemma StopSplit3<T>(a: seq<T>, b: seq<T>, c: seq<T>, op: T -> int)
    ensures Verdict(a + b + c, op) ==
      if Verdict(a, op) == -1 || Verdict(b, op) == -1 then -1 else Verdict(c, op)
    ensures UpToStop(a + b + c, op) ==
      if Verdict(a, op) == -1 then UpToStop(a, op)
      else if Verdict(b, op) == -1 then UpToStop(a, op) + UpToStop(b, op)
      else UpToStop(a, op) + UpToStop(b, op) + UpToStop(c, op)
  {
    StopSplit(a, b, op);
    StopSplit(a + b, c, op);
  }

  /** What stopping means: all calls but the last returned something else, and the last call asked to stop. */
  lemma {:induction false} StopMeaning<T>(s: seq<T>, op: T -> int)
    ensures UpToStop(s, op) <= s
    ensures Verdict(s, op) == -1 <==> exists i :: 0 <= i < |s| && op(s[i]) == -1
    ensures var c := UpToStop(s, op);
      && (forall i :: 0 <= i < |c| - 1 ==> op(c[i]) != -1)
      && (if Verdict(s, op) == -1 then c != [] && op(c[|c| - 1]) == -1 else c == s && Verdict(s, op) == 0)
  {
    if s != [] {
      StopMeaning(s[1..], op);
      if op(s[0]) == -1 {
      } else {
        var c, d := UpToStop(s, op), UpToStop(s[1..], op);
        assert c == [s[0]] + d;
        forall i | 0 <= i < |c| - 1 ensures op(c[i]) != -1 {
          if i > 0 { assert c[i] == d[i - 1]; }
        }
        if i :| 0 <= i < |s| && op(s[i]) == -1 { assert s[1..][i - 1] == s[i]; }
        if i :| 0 <= i < |s[1..]| && op(s[1..][i]) == -1 { assert s[i + 1] == s[1..][i]; }
      }
    }
  }
}

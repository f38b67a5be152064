/** The memory map of bus/memorymap.c: insertion with rebalancing, and lookup,
    on the in-place node pool; and what they promise about the map. */
module MemoryMap {
  import opened MemoryMapTree

  // ------------------------------------------------------- red-black contexts

  /** The hole may be filled with a subtree of black height h, which must have a
      black root when the frame around it is red. */
  ghost predicate RedBlackContext(k: Context, h: nat)
    decreases k
  {
    match k
    case Top => true
    case Frame(_, Black, _, s, up) => RedBlack(s, h) && RedBlackContext(up, h + 1)
    case Frame(_, Red, _, s, up) =>
      RedBlack(s, h) && ColorOf(s) == Black && up.Frame? && up.color == Black && RedBlackContext(up, h)
  }

  predicate RedFrame(k: Context) { k.Frame? && k.color == Red }

  function BlackHeight(t: Tree): nat {
    match t
    case Leaf => 0
    case Branch(c, l, _, _) => BlackHeight(l) + (if c == Black then 1 else 0)
  }

  lemma RedBlackHeight(t: Tree, h: nat)
    requires RedBlack(t, h)
    ensures h == BlackHeight(t)
  {
  }

  function HeightAbove(k: Context, h: nat): nat
    decreases k
  {
    match k
    case Top => h
    case Frame(_, c, _, _, up) => HeightAbove(up, if c == Black then h + 1 else h)
  }

  lemma {:induction false} MkRedBlack(c: Color, i: nat, d: Dir, near: Tree, far: Tree, h: nat)
    requires c == Red ==> ColorOf(near) == Black && ColorOf(far) == Black
    requires RedBlack(near, h) && RedBlack(far, h)
    ensures RedBlack(Mk(c, i, d, near, far), if c == Black then h + 1 else h)
  {
  }

  lemma {:induction false} PlugRedBlack(k: Context, t: Tree, h: nat)
    requires RedBlackContext(k, h) && RedBlack(t, h)
    requires RedFrame(k) ==> ColorOf(t) == Black
    ensures RedBlack(Plug(k, t), HeightAbove(k, h))
    ensures k.Frame? ==> ColorOf(Plug(k, t)) == OuterColor(k)
    decreases k
  {
    match k
    case Top =>
    case Frame(d, c, i, s, up) =>
      MkRedBlack(c, i, d, t, s, h);
      PlugRedBlack(up, Mk(c, i, d, t, s), if c == Black then h + 1 else h);
  }

  /** The colour of the outermost frame: of the root. */
  function OuterColor(k: Context): Color
    requires k.Frame?
    decreases k
  {
    if k.up.Top? then k.color else OuterColor(k.up)
  }

  // A red frame always has a black one around it, so the outermost is black.
  lemma {:induction false} OuterBlack(k: Context, h: nat)
    requires RedBlackContext(k, h) && k.Frame?
    ensures OuterColor(k) == Black
    decreases k
  {
    if k.up.Frame? {
      OuterBlack(k.up, if k.color == Black then h + 1 else h);
    }
  }

  // ------------------------------------------------------ the focus of fixup

  /** The pool holds the tree Plug(k, t), `t` being the subtree at x. */
  ghost predicate Focus(ns: seq<Node>, root: nat, k: Context, t: Tree, x: nat) {
    && 0 < x < |ns|
    && Represents(ns, t, x, ns[x].parent) && ContextRepresents(ns, root, k, x, ns[x].parent)
    && Distinct(t) && ContextDistinct(k) && ContextIds(k) !! Ids(t)
  }

  /** What fixup keeps: a red node, valid below and above except for its parent's colour. */
  ghost predicate Fixing(ns: seq<Node>, root: nat, k: Context, t: Tree, x: nat, h: nat) {
    && Focus(ns, root, k, t, x)
    && t.Branch? && t.color == Red && RedBlack(t, h) && RedBlackContext(k, h)
  }

  function Recolored(ns: seq<Node>, i: nat, c: Color): (r: seq<Node>)
    requires i < |ns|
    ensures |r| == |ns|
  {
    ns[i := ns[i].(color := c)]
  }

  function Blackened(t: Tree): Tree { if t.Branch? then t.(color := Black) else t }

  /** Moving the focus to the parent. */
  lemma {:induction false} FocusUp(ns: seq<Node>, root: nat, d: Dir, c: Color, p: nat, s: Tree, up: Context, t: Tree, x: nat)
    requires Focus(ns, root, Frame(d, c, p, s, up), t, x)
    ensures p == ns[x].parent && 0 < p < |ns| && x != p && ns[p].color == c
    ensures Focus(ns, root, up, Mk(c, p, d, t, s), p)
  {
    MkFacts(ns, c, p, d, t, s, p, ns[p].parent);
  }

  /** Moving the focus to a child. */
  lemma {:induction false} FocusDown(ns: seq<Node>, root: nat, d: Dir, c: Color, p: nat, s: Tree, up: Context, t: Tree, x: nat)
    requires Focus(ns, root, up, Mk(c, p, d, t, s), p) && x != 0 && t.Branch? && t.id == x
    ensures Focus(ns, root, Frame(d, c, p, s, up), t, x)
  {
    MkFacts(ns, c, p, d, t, s, p, ns[p].parent);
  }

  /** Recolouring the root of the focused subtree. */
  lemma {:induction false} FocusRecolor(ns: seq<Node>, root: nat, k: Context, t: Tree, x: nat, c: Color)
    requires Focus(ns, root, k, t, x) && t.Branch?
    ensures Focus(Recolored(ns, x, c), root, k, t.(color := c), x)
    ensures SameContents(ns, Recolored(ns, x, c))
  {
    var ns' := Recolored(ns, x, c);
    RepresentedIds(ns, t, x, ns[x].parent);
    ContextRepresentedIds(ns, root, k, x, ns[x].parent);
    RepresentsFrame(ns, ns', t.left, ns[x].left, x);
    RepresentsFrame(ns, ns', t.right, ns[x].right, x);
    ContextFrame(ns, ns', root, k, x, ns[x].parent);
  }

  /** The nodes a rotation touches are in the pool and distinct. */
  predicate Rotatable(ns: seq<Node>, n: nat, d: Dir) {
    && n < |ns| && Child(ns[n], Flip(d)) < |ns| && ns[n].parent < |ns|
    && Child(ns[Child(ns[n], Flip(d))], d) < |ns|
    && Child(ns[n], Flip(d)) != n && ns[n].parent !in {n, Child(ns[n], Flip(d))}
    && Child(ns[Child(ns[n], Flip(d))], d) !in {n, Child(ns[n], Flip(d))}
  }

  /** Rotating the root of the focused subtree. */
  lemma {:induction false} FocusRotate(ns: seq<Node>, root: nat, k: Context, d: Dir, cn: Color, n: nat, a: Tree, cy: Color, y: nat, b: Tree, e: Tree)
    requires Focus(ns, root, k, Unrotated(d, cn, n, a, cy, y, b, e), n)
    ensures Rotatable(ns, n, d) && Child(ns[n], Flip(d)) == y
    ensures var (ns', root') := Rotate(ns, root, n, d);
      Focus(ns', root', k, Rotated(d, cn, n, a, cy, y, b, e), y) && SameContents(ns, ns')
  {
    hide Rotate, Represents, ContextRepresents, Mk, Ids, Distinct, ContextIds, ContextDistinct, SameContents;
    UnrotatedParts(ns, d, cn, n, a, cy, y, b, e, ns[n].parent);
    ContextRepresentedIds(ns, root, k, n, ns[n].parent);
    RepresentedIds(ns, b, Child(ns[y], d), y);
    RotateCorrect(ns, root, k, d, cn, n, a, cy, y, b, e, ns[n].parent);
    RotationKeepsIds(d, cn, n, a, cy, y, b, e);
    var (ns', root') := Rotate(ns, root, n, d);
    MkFacts(ns', cy, y, d, Mk(cn, n, d, a, b), e, y, ns[n].parent);
  }

  lemma MkFlip(c: Color, i: nat, d: Dir, near: Tree, far: Tree)
    ensures Mk(c, i, d, near, far) == Mk(c, i, Flip(d), far, near)
    ensures Mk(c, i, d, near, far).Branch? && Mk(c, i, d, near, far).id == i && Mk(c, i, d, near, far).color == c
    ensures forall c' :: Mk(c, i, d, near, far).(color := c') == Mk(c', i, d, near, far)
  {
  }

  lemma SameContentsTransitive(a: seq<Node>, b: seq<Node>, c: seq<Node>)
    requires SameContents(a, b) && SameContents(b, c)
    ensures SameContents(a, c)
  {
  }

  /** The pool after the recolouring of case 1. */
  function RecolorFamily(ns: seq<Node>, p: nat, u: nat, g: nat): (r: seq<Node>)
    requires p < |ns| && u < |ns| && g < |ns|
    ensures |r| == |ns|
  {
    Recolored(Recolored(Recolored(ns, p, Black), u, Black), g, Red)
  }

  /** Case 1 of fixup on the pool: parent and uncle turn black, the grandparent red. */
  lemma {:induction false} RecolorFocus(ns: seq<Node>, root: nat, d1: Dir, p: nat, s: Tree, d2: Dir, g: nat, u: Tree, up: Context, t: Tree, x: nat)
    requires Focus(ns, root, Frame(d1, Red, p, s, Frame(d2, Black, g, u, up)), t, x) && u.Branch?
    ensures p < |ns| && u.id < |ns| && g < |ns| && p == ns[x].parent && g == ns[p].parent && u.id == Child(ns[g], Flip(d2))
    ensures var ns' := RecolorFamily(ns, p, u.id, g);
      Focus(ns', root, up, Mk(Red, g, d2, Mk(Black, p, d1, t, s), Blackened(u)), g) && SameContents(ns, ns')
  {
    hide Focus, Mk, Represents, ContextRepresents, SameContents;
    var tp := Mk(Red, p, d1, t, s);
    var bp := Mk(Black, p, d1, t, s);
    FocusUp(ns, root, d1, Red, p, s, Frame(d2, Black, g, u, up), t, x);
    MkFlip(Red, p, d1, t, s);
    FocusUncle(ns, root, d2, Black, g, u, up, tp, p);
    FocusRecolor(ns, root, Frame(d2, Black, g, u, up), tp, p, Black);
    var ns1 := Recolored(ns, p, Black);
    FocusUp(ns1, root, d2, Black, g, u, up, bp, p);
    MkFlip(Black, g, d2, bp, u);
    FocusDown(ns1, root, Flip(d2), Black, g, bp, up, u, u.id);
    FocusRecolor(ns1, root, Frame(Flip(d2), Black, g, bp, up), u, u.id, Black);
    var ns2 := Recolored(ns1, u.id, Black);
    FocusUp(ns2, root, Flip(d2), Black, g, bp, up, Blackened(u), u.id);
    MkFlip(Black, g, d2, bp, Blackened(u));
    FocusRecolor(ns2, root, up, Mk(Black, g, d2, bp, Blackened(u)), g, Red);
    SameContentsTransitive(ns, ns1, ns2);
    SameContentsTransitive(ns, ns2, Recolored(ns2, g, Red));
  }

  /** Where the uncle is. */
  lemma {:induction false} FocusUncle(ns: seq<Node>, root: nat, d2: Dir, c: Color, g: nat, u: Tree, up: Context, t: Tree, p: nat)
    requires Focus(ns, root, Frame(d2, c, g, u, up), t, p)
    ensures g == ns[p].parent && 0 < g < |ns| && Child(ns[g], Flip(d2)) < |ns| && Child(ns[g], d2) == p
    ensures p != Child(ns[g], Flip(d2))
    ensures if u.Leaf? then Child(ns[g], Flip(d2)) == 0
            else Child(ns[g], Flip(d2)) == u.id && 0 < u.id && ns[u.id].color == u.color
  {
    RepresentedIds(ns, u, Child(ns[g], Flip(d2)), g);
    RepresentedIds(ns, t, p, g);
  }

  /** Case 2: an inner child is rotated to the outside; the focus moves to the old parent. */
  lemma {:induction false} RotateInnerFocus(ns: seq<Node>, root: nat, d: Dir, p: nat, s: Tree, up: Context, x: nat, a: Tree, b: Tree)
    requires Focus(ns, root, Frame(Flip(d), Red, p, s, up), Mk(Red, x, d, a, b), x) && 0 < x < |ns|
    ensures p == ns[x].parent && Rotatable(ns, p, d) && Child(ns[p], Flip(d)) == x
    ensures var (ns', root') := Rotate(ns, root, p, d);
      Focus(ns', root', Frame(d, Red, x, b, up), Mk(Red, p, d, s, a), p) && SameContents(ns, ns')
  {
    hide Focus, Mk, Rotate, SameContents;
    FocusUp(ns, root, Flip(d), Red, p, s, up, Mk(Red, x, d, a, b), x);
    MkFlip(Red, p, Flip(d), Mk(Red, x, d, a, b), s);
    FocusRotate(ns, root, up, d, Red, p, s, Red, x, a, b);
    var (ns', root') := Rotate(ns, root, p, d);
    MkFlip(Red, p, d, s, a);
    FocusBounds(ns, root, Frame(Flip(d), Red, p, s, up), Mk(Red, x, d, a, b), x);
    FocusDown(ns', root', d, Red, x, b, up, Mk(Red, p, d, s, a), p);
  }

  lemma FocusBounds(ns: seq<Node>, root: nat, k: Context, t: Tree, x: nat)
    requires Focus(ns, root, k, t, x)
    ensures 0 < x < |ns| && (k.Frame? ==> 0 < k.id < |ns|) && t.Branch? && t.id == x
    ensures k.Top? <==> ns[x].parent == 0
  {
  }

  /** Case 3: the parent turns black, the grandparent red, and the grandparent is rotated down. */
  lemma {:induction false} RotateOuterFocus(ns: seq<Node>, root: nat, d: Dir, p: nat, s: Tree, g: nat, u: Tree, up: Context, t: Tree, x: nat)
    requires Focus(ns, root, Frame(d, Red, p, s, Frame(d, Black, g, u, up)), t, x)
    ensures p < |ns| && g < |ns| && p == ns[x].parent && g == ns[p].parent
    ensures var ns1 := Recolored(Recolored(ns, p, Black), g, Red);
      && Rotatable(ns1, g, Flip(d)) && Child(ns1[g], d) == p
      && var (ns', root') := Rotate(ns1, root, g, Flip(d));
      Focus(ns', root', Frame(d, Black, p, Mk(Red, g, d, s, u), up), t, x) && SameContents(ns, ns')
  {
    hide Focus, Mk, Rotate, Represents, ContextRepresents, SameContents;
    FocusBounds(ns, root, Frame(d, Red, p, s, Frame(d, Black, g, u, up)), t, x);
    FocusUp(ns, root, d, Red, p, s, Frame(d, Black, g, u, up), t, x);
    MkFlip(Red, p, d, t, s);
    var bp := Mk(Black, p, d, t, s);
    FocusRecolor(ns, root, Frame(d, Black, g, u, up), Mk(Red, p, d, t, s), p, Black);
    var ns0 := Recolored(ns, p, Black);
    FocusUp(ns0, root, d, Black, g, u, up, bp, p);
    MkFlip(Black, g, d, bp, u);
    FocusRecolor(ns0, root, up, Mk(Black, g, d, bp, u), g, Red);
    var ns1 := Recolored(ns0, g, Red);
    MkFlip(Red, g, d, bp, u);
    MkFlip(Black, p, d, t, s);
    FocusRotate(ns1, root, up, Flip(d), Red, g, u, Black, p, s, t);
    var (ns', root') := Rotate(ns1, root, g, Flip(d));
    MkFlip(Red, g, d, s, u);
    MkFlip(Black, p, d, t, Mk(Red, g, d, s, u));
    FocusDown(ns', root', d, Black, p, Mk(Red, g, d, s, u), up, t, x);
    SameContentsTransitive(ns, ns0, ns1);
    SameContentsTransitive(ns, ns1, ns');
  }

  // ------------------------------- what the cases keep: order and black height

  lemma BlackenedFacts(u: Tree, h: nat)
    requires u.Branch? && u.color == Red && RedBlack(u, h)
    ensures RedBlack(Blackened(u), h + 1) && InOrder(Blackened(u)) == InOrder(u)
  {
  }

  lemma {:induction false} RecolorKeeps(d1: Dir, p: nat, s: Tree, d2: Dir, g: nat, u: Tree, up: Context, t: Tree, h: nat)
    requires RedBlack(t, h) && RedBlackContext(Frame(d1, Red, p, s, Frame(d2, Black, g, u, up)), h)
    requires ColorOf(u) == Red
    ensures var t' := Mk(Red, g, d2, Mk(Black, p, d1, t, s), Blackened(u));
      && RedBlack(t', h + 1) && RedBlackContext(up, h + 1)
      && InOrder(Plug(up, t')) == InOrder(Plug(Frame(d1, Red, p, s, Frame(d2, Black, g, u, up)), t))
  {
    hide InOrder, Mk, RedBlack;
    var bp := Mk(Black, p, d1, t, s);
    var t' := Mk(Red, g, d2, bp, Blackened(u));
    BlackenedFacts(u, h);
    MkRedBlack(Black, p, d1, t, s, h);
    MkFlip(Black, p, d1, t, s);
    MkRedBlack(Red, g, d2, bp, Blackened(u), h + 1);
    PlugInOrder(up, t');
    PlugInOrder(up, Mk(Black, g, d2, Mk(Red, p, d1, t, s), u));
    MkOrder(Red, g, d2, bp, Blackened(u));
    MkOrder(Black, g, d2, Mk(Red, p, d1, t, s), u);
    MkOrder(Black, p, d1, t, s);
    MkOrder(Red, p, d1, t, s);
  }

  lemma {:induction false} RotateInnerKeeps(d: Dir, p: nat, s: Tree, up: Context, x: nat, a: Tree, b: Tree, h: nat)
    requires RedBlack(Mk(Red, x, d, a, b), h) && RedBlackContext(Frame(Flip(d), Red, p, s, up), h)
    ensures RedBlack(Mk(Red, p, d, s, a), h) && RedBlackContext(Frame(d, Red, x, b, up), h)
    ensures InOrder(Plug(Frame(d, Red, x, b, up), Mk(Red, p, d, s, a))) ==
      InOrder(Plug(Frame(Flip(d), Red, p, s, up), Mk(Red, x, d, a, b)))
  {
    MkFlip(Red, p, Flip(d), Mk(Red, x, d, a, b), s);
    RotationKeepsOrder(d, Red, p, s, Red, x, a, b);
    PlugInOrder(up, Unrotated(d, Red, p, s, Red, x, a, b));
    PlugInOrder(up, Rotated(d, Red, p, s, Red, x, a, b));
    hide InOrder;
  }

  lemma {:induction false} OuterOrder(d: Dir, p: nat, s: Tree, g: nat, u: Tree, t: Tree)
    ensures InOrder(Mk(Black, p, d, t, Mk(Red, g, d, s, u))) == InOrder(Mk(Black, g, d, Mk(Red, p, d, t, s), u))
  {
    hide InOrder, Mk;
    var ts, ps, ss, us := InOrder(t), [p], InOrder(s), InOrder(u);
    MkOrder(Black, p, d, t, Mk(Red, g, d, s, u));
    MkOrder(Red, g, d, s, u);
    MkOrder(Black, g, d, Mk(Red, p, d, t, s), u);
    MkOrder(Red, p, d, t, s);
    if d == Left {
      assert ts + ps + (ss + [g] + us) == (ts + ps + ss) + [g] + us;
    } else {
      assert (us + [g] + ss) + ps + ts == us + [g] + (ss + ps + ts);
    }
  }

  lemma {:induction false} RotateOuterKeeps(d: Dir, p: nat, s: Tree, g: nat, u: Tree, up: Context, t: Tree, h: nat)
    requires RedBlack(t, h) && RedBlackContext(Frame(d, Red, p, s, Frame(d, Black, g, u, up)), h)
    requires ColorOf(u) == Black
    ensures RedBlackContext(Frame(d, Black, p, Mk(Red, g, d, s, u), up), h)
    ensures InOrder(Plug(Frame(d, Black, p, Mk(Red, g, d, s, u), up), t)) ==
      InOrder(Plug(Frame(d, Red, p, s, Frame(d, Black, g, u, up)), t))
  {
    hide InOrder, Mk, RedBlack;
    MkRedBlack(Red, g, d, s, u, h);
    OuterOrder(d, p, s, g, u, t);
    PlugInOrder(up, Mk(Black, p, d, t, Mk(Red, g, d, s, u)));
    PlugInOrder(up, Mk(Black, g, d, Mk(Red, p, d, t, s), u));
  }

  // -------------------------------------------------------------- the whole map

  function Start(ns: seq<Node>, i: nat): nat { if i < |ns| then ns[i].mapping.start else 0 }

  /** Ordered by start, equal starts in the order of insertion. */
  ghost predicate StablySorted(ns: seq<Node>, s: seq<nat>) {
    forall a, b :: 0 <= a < b < |s| ==> Start(ns, s[a]) < Start(ns, s[b]) || (Start(ns, s[a]) == Start(ns, s[b]) && s[a] < s[b])
  }

  /** The pool holds a red-black tree of the nodes 1 to next - 1, in start order. */
  ghost predicate IsMap(ns: seq<Node>, root: nat, next: nat, tree: Tree) {
    && 1 <= next <= |ns|
    && ns[0] == NIL_NODE
    && Represents(ns, tree, root, 0)
    && Distinct(tree) && (forall i :: i in Ids(tree) <==> 1 <= i < next)
    && RedBlack(tree, BlackHeight(tree)) && ColorOf(tree) == Black
    && StablySorted(ns, InOrder(tree))
  }

  lemma IdsInOrder(t: Tree)
    ensures forall i :: i in InOrder(t) <==> i in Ids(t)
  {
  }

  /** x goes after every element whose start is not greater than its own. */
  function Inserted(ns: seq<Node>, s: seq<nat>, x: nat): seq<nat> {
    if s == [] || Start(ns, x) < Start(ns, s[0]) then [x] + s else [s[0]] + Inserted(ns, s[1..], x)
  }

  lemma {:induction false} InsertedSplit(ns: seq<Node>, b: seq<nat>, a: seq<nat>, x: nat)
    requires forall j :: j in b ==> Start(ns, j) <= Start(ns, x)
    requires forall j :: j in a ==> Start(ns, x) < Start(ns, j)
    ensures Inserted(ns, b + a, x) == b + [x] + a
  {
    if b == [] {
      assert b + a == a;
    } else {
      assert (b + a)[0] == b[0] && (b + a)[1..] == b[1..] + a;
      InsertedSplit(ns, b[1..], a, x);
    }
  }

  lemma InsertedSorted(ns: seq<Node>, b: seq<nat>, a: seq<nat>, x: nat)
    requires StablySorted(ns, b + a)
    requires forall j :: j in b ==> Start(ns, j) <= Start(ns, x) && j < x
    requires forall j :: j in a ==> Start(ns, x) < Start(ns, j)
    ensures StablySorted(ns, b + [x] + a)
  {
    var s, t := b + a, b + [x] + a;
    forall i, j | 0 <= i < j < |t|
      ensures Start(ns, t[i]) < Start(ns, t[j]) || (Start(ns, t[i]) == Start(ns, t[j]) && t[i] < t[j])
    {
      assert i < |b| ==> t[i] == s[i] && t[i] in b;
      assert i > |b| ==> t[i] == s[i - 1] && t[i] in a;
      assert j < |b| ==> t[j] == s[j] && t[j] in b;
      assert j > |b| ==> t[j] == s[j - 1] && t[j] in a;
    }
  }

  // ------------------------------------------------------------- the descent

  /** The state of the walk down the tree: the subtree at `check` and the path above it. */
  ghost predicate Walking(ns: seq<Node>, root: nat, tree: Tree, k: Context, t: Tree, h: nat, check: nat, cur: nat, start: nat) {
    && Represents(ns, t, check, cur) && ContextRepresents(ns, root, k, check, cur)
    && Plug(k, t) == tree
    && RedBlack(t, h) && RedBlackContext(k, h)
    && (RedFrame(k) || k.Top? ==> ColorOf(t) == Black)
    && (k.Frame? ==> k.dir == if start < Start(ns, cur) then Left else Right)
    && (forall j :: j in Before(k) ==> Start(ns, j) <= start)
    && (forall j :: j in After(k) ==> start < Start(ns, j))
  }

  lemma SortedMiddle(ns: seq<Node>, b: seq<nat>, l: seq<nat>, i: nat, r: seq<nat>, a: seq<nat>)
    requires StablySorted(ns, b + (l + [i] + r) + a)
    ensures forall j :: j in l ==> Start(ns, j) <= Start(ns, i)
    ensures forall j :: j in r ==> Start(ns, i) <= Start(ns, j)
  {
    var s := b + (l + [i] + r) + a;
    assert s[|b| + |l|] == i;
    forall j | j in l ensures Start(ns, j) <= Start(ns, i) {
      var q :| 0 <= q < |l| && l[q] == j;
      assert s[|b| + q] == j;
    }
    forall j | j in r ensures Start(ns, i) <= Start(ns, j) {
      var q :| 0 <= q < |r| && r[q] == j;
      assert s[|b| + |l| + 1 + q] == j;
    }
  }

  function HeightBelow(t: Tree, h: nat): nat { if ColorOf(t) == Black && h > 0 then h - 1 else h }

  /** One step of the walk, to the left when the start is smaller and to the right otherwise. */
  lemma {:induction false} WalkStep(ns: seq<Node>, root: nat, tree: Tree, k: Context, t: Tree, h: nat, check: nat, cur: nat, start: nat)
    requires Walking(ns, root, tree, k, t, h, check, cur, start) && check != 0
    requires StablySorted(ns, InOrder(tree))
    ensures check < |ns| && t.Branch? && t.id == check
    ensures var d := if start < Start(ns, check) then Left else Right;
      var (near, far) := if d == Left then (t.left, t.right) else (t.right, t.left);
      Walking(ns, root, tree, Frame(d, t.color, t.id, far, k), near, HeightBelow(t, h), Child(ns[check], d), check, start)
  {
    hide Plug;
    PlugInOrder(k, t);
    SortedMiddle(ns, Before(k), InOrder(t.left), t.id, InOrder(t.right), After(k));
    var d := if start < Start(ns, check) then Left else Right;
    var (near, far) := if d == Left then (t.left, t.right) else (t.right, t.left);
    PlugFrame(d, t.color, t.id, near, far, k);
  }

  lemma PlugFrame(d: Dir, c: Color, i: nat, near: Tree, far: Tree, k: Context)
    ensures Plug(Frame(d, c, i, far, k), near) == Plug(k, Mk(c, i, d, near, far))
  {
  }

  /** The tree with a new red leaf where the walk ends, before any fixup. */
  function Hung(ns: seq<Node>, t: Tree, start: nat, x: nat): Tree {
    match t
    case Leaf => Branch(Red, Leaf, x, Leaf)
    case Branch(c, l, i, r) =>
      if start < Start(ns, i) then Branch(c, Hung(ns, l, start, x), i, r) else Branch(c, l, i, Hung(ns, r, start, x))
  }

  function SubFor(ns: seq<Node>, t: Tree, start: nat): Tree
    requires t.Branch?
  {
    if start < Start(ns, t.id) then t.left else t.right
  }

  /** The new leaf's parent is red, so the tree needs its fixup. */
  predicate RedParent(ns: seq<Node>, t: Tree, start: nat) {
    t.Branch? && if SubFor(ns, t, start).Leaf? then t.color == Red else RedParent(ns, SubFor(ns, t, start), start)
  }

  /** The walk so far, as seen by the tree it will leave. */
  ghost predicate OnTheWay(ns: seq<Node>, tree: Tree, k: Context, t: Tree, start: nat, x: nat) {
    && Hung(ns, tree, start, x) == Plug(k, Hung(ns, t, start, x))
    && (RedParent(ns, tree, start) <==> if t.Leaf? then RedFrame(k) else RedParent(ns, t, start))
  }

  lemma OnTheWayStep(ns: seq<Node>, tree: Tree, k: Context, t: Tree, start: nat, x: nat)
    requires t.Branch? && OnTheWay(ns, tree, k, t, start, x)
    ensures var d := if start < Start(ns, t.id) then Left else Right;
      OnTheWay(ns, tree, Frame(d, t.color, t.id, if d == Left then t.right else t.left, k), SubFor(ns, t, start), start, x)
  {
  }

  lemma OnTheWayBegin(ns: seq<Node>, tree: Tree, start: nat, x: nat)
    ensures OnTheWay(ns, tree, Top, tree, start, x)
  {
  }

  lemma OnTheWayEnd(ns: seq<Node>, tree: Tree, k: Context, start: nat, x: nat)
    requires OnTheWay(ns, tree, k, Leaf, start, x) && Plug(k, Leaf) == tree
    ensures RedParent(ns, tree, start) <==> RedFrame(k)
    ensures Hung(ns, tree, start, x) == Plug(k, Branch(Red, Leaf, x, Leaf))
    ensures tree.Leaf? <==> k.Top?
  {
    if k.Frame? {
      PlugBranch(k.up, Mk(k.color, k.id, k.dir, Leaf, k.sibling));
    }
  }

  /** Hooking a new red leaf into the empty place the walk found. */
  lemma {:induction false} HookLeaf(ns: seq<Node>, ns': seq<Node>, root: nat, root': nat, k: Context, cur: nat, x: nat)
    requires ContextRepresents(ns, root, k, 0, cur) && ContextDistinct(k)
    requires 0 < x < |ns| == |ns'| && x !in ContextIds(k) && cur < |ns|
    requires ns'[x].left == 0 && ns'[x].right == 0 && ns'[x].parent == cur && ns'[x].color == Red
    requires forall i :: 0 <= i < |ns| && i != x && i != cur ==> ns'[i] == ns[i]
    requires if k.Top? then root' == x else root' == root && ns'[cur] == WithChild(ns[cur], k.dir, x)
    ensures Focus(ns', root', k, Branch(Red, Leaf, x, Leaf), x)
  {
    ContextRepresentedIds(ns, root, k, 0, cur);
    Rehang(ns, ns', root, root', k, 0, x, cur);
  }

  /** The end of fixup: blackening the root completes the tree. */
  lemma {:induction false} FixupEnd(ns: seq<Node>, root: nat, k: Context, t: Tree, x: nat, h: nat)
    requires Fixing(ns, root, k, t, x, h) && !RedFrame(k)
    ensures 0 < root < |ns|
    ensures var ns' := Recolored(ns, root, Black); var tree := if k.Top? then Blackened(t) else Plug(k, t);
      && Represents(ns', tree, root, 0) && SameContents(ns, ns')
      && Distinct(tree) && RedBlack(tree, BlackHeight(tree)) && ColorOf(tree) == Black
      && InOrder(tree) == InOrder(Plug(k, t))
  {
    var p := ns[x].parent;
    var whole := Plug(k, t);
    PlugRepresents(ns, root, k, t, x, p);
    PlugIds(k, t);
    RepresentedIds(ns, whole, root, 0);
    if k.Top? {
      FocusRecolor(ns, root, Top, t, x, Black);
      BlackenedFacts(t, h);
      RedBlackHeight(Blackened(t), h + 1);
    } else {
      PlugRedBlack(k, t, h);
      OuterBlack(k, h);
      RedBlackHeight(whole, HeightAbove(k, h));
      assert whole.Branch? by { PlugBranch(k, t); }
      assert ns[root].color == Black;
      assert Recolored(ns, root, Black) == ns;
    }
  }

  lemma {:induction false} PlugBranch(k: Context, t: Tree)
    requires t.Branch?
    ensures Plug(k, t).Branch?
    decreases k
  {
    if k.Frame? {
      PlugBranch(k.up, Mk(k.color, k.id, k.dir, t, k.sibling));
    }
  }

  /** What the links say about the frames around the focus. */
  lemma {:induction false} FixupCases(ns: seq<Node>, root: nat, k: Context, t: Tree, x: nat, h: nat)
    requires Fixing(ns, root, k, t, x, h) && ns[0] == NIL_NODE
    ensures x < |ns| && ns[x].parent < |ns|
    ensures ns[ns[x].parent].color == Red <==> RedFrame(k)
    ensures RedFrame(k) ==>
      && ns[x].parent == k.id && k.up.Frame? && ns[k.id].parent == k.up.id && k.id < |ns| && k.up.id < |ns|
      && (Child(ns[k.id], k.dir) == x) && Child(ns[k.id], Flip(k.dir)) != x
      && (Child(ns[k.up.id], k.up.dir) == k.id) && Child(ns[k.up.id], Flip(k.up.dir)) != k.id
      && Child(ns[k.up.id], Flip(k.up.dir)) < |ns|
      && (ns[Child(ns[k.up.id], Flip(k.up.dir))].color == ColorOf(k.up.sibling))
      && (k.up.sibling.Branch? ==> Child(ns[k.up.id], Flip(k.up.dir)) == k.up.sibling.id)
  {
    hide RedBlack;
    FocusBounds(ns, root, k, t, x);
    if RedFrame(k) {
      var Frame(d1, c1, p, s, up) := k;
      FocusUncle(ns, root, d1, c1, p, s, up, t, x);
      FocusUp(ns, root, d1, c1, p, s, up, t, x);
      FocusUncle(ns, root, up.dir, up.color, up.id, up.sibling, up.up, Mk(c1, p, d1, t, s), p);
    } else if k.Frame? {
      FocusUp(ns, root, k.dir, k.color, k.id, k.sibling, k.up, t, x);
    }
  }

  /** Fixup terminates: red frames count double, and case 3 removes one. */
  function ContextSize(k: Context): nat {
    match k
    case Top => 0
    case Frame(_, c, _, _, up) => (if c == Red then 2 else 1) + ContextSize(up)
  }

  function Sub(t: Tree, d: Dir): Tree
    requires t.Branch?
  {
    if d == Left then t.left else t.right
  }

  // The focus after each case of fixup.

  function RecolorTree(k: Context, t: Tree): Tree
    requires RedFrame(k) && k.up.Frame?
  {
    Mk(Red, k.up.id, k.up.dir, Mk(Black, k.id, k.dir, t, k.sibling), Blackened(k.up.sibling))
  }

  function InnerContext(k: Context, t: Tree): Context
    requires RedFrame(k) && t.Branch?
  {
    Frame(Flip(k.dir), Red, t.id, Sub(t, k.dir), k.up)
  }

  function InnerTree(k: Context, t: Tree): Tree
    requires RedFrame(k) && t.Branch?
  {
    Mk(Red, k.id, Flip(k.dir), k.sibling, Sub(t, Flip(k.dir)))
  }

  function OuterContext(k: Context): Context
    requires RedFrame(k) && k.up.Frame?
  {
    Frame(k.dir, Black, k.id, Mk(Red, k.up.id, k.dir, k.sibling, k.up.sibling), k.up.up)
  }

  lemma {:induction false} Case1(ns: seq<Node>, root: nat, k: Context, t: Tree, x: nat, h: nat)
    requires Fixing(ns, root, k, t, x, h) && RedFrame(k) && ColorOf(k.up.sibling) == Red
    ensures k.id < |ns| && k.up.sibling.id < |ns| && k.up.id < |ns|
    ensures var ns' := RecolorFamily(ns, k.id, k.up.sibling.id, k.up.id);
      Fixing(ns', root, k.up.up, RecolorTree(k, t), k.up.id, h + 1) && SameContents(ns, ns')
    ensures InOrder(Plug(k.up.up, RecolorTree(k, t))) == InOrder(Plug(k, t)) && ContextSize(k.up.up) < ContextSize(k)
  {
    hide Focus, Mk, SameContents, InOrder, RecolorFamily;
    var Frame(d1, _, p, s, Frame(d2, _, g, u, up)) := k;
    RecolorFocus(ns, root, d1, p, s, d2, g, u, up, t, x);
    RecolorKeeps(d1, p, s, d2, g, u, up, t, h);
    MkFlip(Red, g, d2, Mk(Black, p, d1, t, s), Blackened(u));
  }

  lemma {:induction false} Case2(ns: seq<Node>, root: nat, k: Context, t: Tree, x: nat, h: nat)
    requires Fixing(ns, root, k, t, x, h) && RedFrame(k)
    ensures Rotatable(ns, k.id, Flip(k.dir)) && ns[x].parent == k.id && t.Branch?
    ensures ContextSize(InnerContext(k, t)) == ContextSize(k)
    ensures var (ns', root') := Rotate(ns, root, k.id, Flip(k.dir));
      Fixing(ns', root', InnerContext(k, t), InnerTree(k, t), k.id, h) && SameContents(ns, ns')
    ensures InOrder(Plug(InnerContext(k, t), InnerTree(k, t))) == InOrder(Plug(k, t))
  {
    hide Mk, SameContents, InOrder, Rotate, RedBlack, Rotatable;
    FocusBounds(ns, root, k, t, x);
    var d := Flip(k.dir);
    var a, b := Sub(t, d), Sub(t, Flip(d));
    assert t == Mk(Red, x, d, a, b) by { MkSub(t, d); }
    hide Focus;
    RotateInnerFocus(ns, root, d, k.id, k.sibling, k.up, x, a, b);
    RotateInnerKeeps(d, k.id, k.sibling, k.up, x, a, b, h);
    MkFlip(Red, k.id, d, k.sibling, a);
  }

  lemma MkSub(t: Tree, d: Dir)
    requires t.Branch?
    ensures t == Mk(t.color, t.id, d, Sub(t, d), Sub(t, Flip(d)))
  {
  }

  lemma {:induction false} Case3(ns: seq<Node>, root: nat, k: Context, t: Tree, x: nat, h: nat)
    requires Fixing(ns, root, k, t, x, h) && RedFrame(k) && k.dir == k.up.dir && ColorOf(k.up.sibling) == Black
    ensures k.id < |ns| && k.up.id < |ns| && ns[x].parent == k.id && ns[k.id].parent == k.up.id
    ensures var ns1 := Recolored(Recolored(ns, k.id, Black), k.up.id, Red);
      Rotatable(ns1, k.up.id, Flip(k.dir)) &&
      var (ns', root') := Rotate(ns1, root, k.up.id, Flip(k.dir));
      Fixing(ns', root', OuterContext(k), t, x, h) && SameContents(ns, ns')
    ensures InOrder(Plug(OuterContext(k), t)) == InOrder(Plug(k, t)) && ContextSize(OuterContext(k)) < ContextSize(k)
  {
    hide Focus, Mk, SameContents, InOrder, Rotate, RedBlack, Rotatable, Recolored;
    var Frame(d, _, p, s, Frame(_, _, g, u, up)) := k;
    RotateOuterFocus(ns, root, d, p, s, g, u, up, t, x);
    RotateOuterKeeps(d, p, s, g, u, up, t, h);
  }

  /** The walk starts with the whole tree. */
  lemma WalkBegin(ns: seq<Node>, root: nat, next: nat, tree: Tree, start: nat)
    requires IsMap(ns, root, next, tree)
    ensures Walking(ns, root, tree, Top, tree, BlackHeight(tree), root, 0, start)
  {
  }

  /** The walk ends at an empty place: what is before starts no later, what is after starts later. */
  lemma {:induction false} WalkEnd(ns: seq<Node>, root: nat, next: nat, tree: Tree, k: Context, t: Tree, h: nat, cur: nat, start: nat)
    requires IsMap(ns, root, next, tree) && Walking(ns, root, tree, k, t, h, 0, cur, start)
    ensures Plug(k, t) == tree && t == Leaf && h == 0 && ContextDistinct(k) && ContextRepresents(ns, root, k, 0, cur) && RedBlackContext(k, 0)
    ensures (forall i :: i in ContextIds(k) <==> 1 <= i < next)
    ensures cur < next <= |ns| && (k.Top? <==> cur == 0)
    ensures k.Frame? ==> k.dir == if start < Start(ns, cur) then Left else Right
  {
    assert t == Leaf;
    hide StablySorted, Plug, InOrder, RedBlackContext, Before, After;
    PlugIds(k, Leaf);
    ContextRepresentedIds(ns, root, k, 0, cur);
  }

  lemma {:induction false} WalkEndOrder(ns: seq<Node>, root: nat, next: nat, tree: Tree, k: Context, h: nat, cur: nat, start: nat)
    requires IsMap(ns, root, next, tree) && Walking(ns, root, tree, k, Leaf, h, 0, cur, start)
    ensures InOrder(tree) == Before(k) + After(k)
    ensures forall j :: j in Before(k) ==> 1 <= j < next && Start(ns, j) <= start
    ensures forall j :: j in After(k) ==> 1 <= j < next && start < Start(ns, j)
  {
    PlugInOrder(k, Leaf);
    IdsInOrder(tree);
    hide StablySorted, Plug, RedBlackContext, RedBlack, Represents, ContextRepresents, Distinct;
    assert InOrder(tree) == Before(k) + After(k);
    assert forall j :: j in Before(k) || j in After(k) ==> j in InOrder(tree);
  }

  lemma {:induction false} InsertedIds(b: seq<nat>, a: seq<nat>, tree: Tree, tree': Tree, next: nat)
    requires InOrder(tree) == b + a && InOrder(tree') == b + [next] + a && next >= 1
    requires forall i :: i in Ids(tree) <==> 1 <= i < next
    ensures forall i :: i in Ids(tree') <==> 1 <= i < next + 1
  {
    IdsInOrder(tree);
    IdsInOrder(tree');
    forall i ensures i in Ids(tree') <==> 1 <= i < next + 1 {
      assert i in b + [next] + a <==> i in b || i == next || i in a;
      assert i in b + a <==> i in b || i in a;
    }
  }

  /** After the insertion, the tree in the pool is the map again, the new node in its place. */
  lemma {:induction false} InsertionComplete(ns: seq<Node>, ns': seq<Node>, root': nat, next: nat, tree: Tree, tree': Tree, b: seq<nat>, a: seq<nat>)
    requires IsMap'(ns, next, tree) && next < |ns| == |ns'|
    requires InOrder(tree) == b + a && InOrder(tree') == b + [next] + a
    requires ns'[0] == NIL_NODE && (forall i :: 0 <= i < |ns| && i != next ==> ns'[i].mapping == ns[i].mapping)
    requires forall j :: j in b ==> Start(ns, j) <= Start(ns', next) && 1 <= j < next
    requires forall j :: j in a ==> Start(ns', next) < Start(ns, j) && 1 <= j < next
    requires Represents(ns', tree', root', 0) && Distinct(tree') && RedBlack(tree', BlackHeight(tree')) && ColorOf(tree') == Black
    ensures IsMap(ns', root', next + 1, tree')
    ensures InOrder(tree') == Inserted(ns', InOrder(tree), next)
  {
    hide RedBlack, Represents, Distinct, Inserted, InOrder, Ids, StablySorted;
    InsertedIds(b, a, tree, tree', next);
    forall j | j in b + a ensures j != next && Start(ns', j) == Start(ns, j) {
      assert j in b || j in a;
    }
    SortedFrame(ns, ns', b + a);
    InsertedSorted(ns', b, a, next);
    InsertedSplit(ns', b, a, next);
  }

  lemma SortedFrame(ns: seq<Node>, ns': seq<Node>, s: seq<nat>)
    requires StablySorted(ns, s)
    requires forall j :: j in s ==> Start(ns', j) == Start(ns, j)
    ensures StablySorted(ns', s)
  {
  }

  /** The part of IsMap that does not depend on the links. */
  ghost predicate IsMap'(ns: seq<Node>, next: nat, tree: Tree) {
    && 1 <= next <= |ns| && (forall i :: i in Ids(tree) <==> 1 <= i < next) && StablySorted(ns, InOrder(tree))
  }

  function Word32(x: int): (w: nat) { x % 0x1_0000_0000 }

  predicate Contains(m: Mapping, address: nat) { m.start <= address <= m.end }

  // ------------------------------------------------------------------ lookup

  /** The walk of resolve_mapped_address; 0 when it falls off the tree. */
  function Search(ns: seq<Node>, t: Tree, address: nat): nat {
    match t
    case Leaf => 0
    case Branch(_, l, i, r) =>
      if i >= |ns| then 0
      else if address < ns[i].mapping.start then Search(ns, l, address)
      else if address > ns[i].mapping.end then Search(ns, r, address)
      else i
  }

  /** The number of nodes that walk visits. */
  function Visits(ns: seq<Node>, t: Tree, address: nat): nat {
    match t
    case Leaf => 0
    case Branch(_, l, i, r) =>
      1 + if i >= |ns| then 0
          else if address < ns[i].mapping.start then Visits(ns, l, address)
          else if address > ns[i].mapping.end then Visits(ns, r, address)
          else 0
  }

  /** The first range, in the order of insertion, that contains the address; 0 if none does. */
  function LinearScan(ns: seq<Node>, i: nat, next: nat, address: nat): nat
    requires i <= next <= |ns|
    decreases next - i
  {
    if i == next then 0 else if Contains(ns[i].mapping, address) then i else LinearScan(ns, i + 1, next, address)
  }

  lemma {:induction false} LinearScanFinds(ns: seq<Node>, i: nat, next: nat, address: nat)
    requires 1 <= i <= next <= |ns|
    ensures var r := LinearScan(ns, i, next, address);
      if r == 0 then forall j :: i <= j < next ==> !Contains(ns[j].mapping, address)
      else i <= r < next && Contains(ns[r].mapping, address)
    decreases next - i
  {
    if i < next && !Contains(ns[i].mapping, address) {
      LinearScanFinds(ns, i + 1, next, address);
    }
  }

  /** Node i comes before node j: an earlier start, or the same start inserted earlier. */
  predicate Precedes(ns: seq<Node>, i: nat, j: nat) {
    Start(ns, i) < Start(ns, j) || (Start(ns, i) == Start(ns, j) && i < j)
  }

  /** A range that comes before another does not end after it.  Ranges may
      overlap, as long as none sticks out of a later one. */
  ghost predicate EndsOrdered(ns: seq<Node>, next: nat)
    requires next <= |ns|
  {
    forall i, j :: 1 <= i < next && 1 <= j < next && Precedes(ns, i, j) ==> ns[i].mapping.end <= ns[j].mapping.end
  }

  /** At most one range contains the address. */
  ghost predicate InOneRange(ns: seq<Node>, next: nat, address: nat)
    requires next <= |ns|
  {
    forall i, j :: 1 <= i < next && 1 <= j < next && Contains(ns[i].mapping, address) && Contains(ns[j].mapping, address) ==> i == j
  }

  /** Whatever the ranges, a mapping that is found contains the address. */
  lemma {:induction false} SearchSound(ns: seq<Node>, t: Tree, address: nat)
    requires forall i :: i in Ids(t) ==> 0 < i < |ns|
    ensures var r := Search(ns, t, address); r != 0 ==> r in Ids(t) && Contains(ns[r].mapping, address)
  {
    match t
    case Leaf =>
    case Branch(_, l, i, r) =>
      assert Ids(l) <= Ids(t) && Ids(r) <= Ids(t) && i in Ids(t);
      SearchSound(ns, l, address);
      SearchSound(ns, r, address);
  }

  lemma SortedParts(ns: seq<Node>, l: seq<nat>, i: nat, r: seq<nat>)
    requires StablySorted(ns, l + [i] + r)
    ensures StablySorted(ns, l) && StablySorted(ns, r)
  {
    var s := l + [i] + r;
    assert forall q :: 0 <= q < |l| ==> s[q] == l[q];
    assert forall q :: 0 <= q < |r| ==> s[|l| + 1 + q] == r[q];
  }

  lemma SortedAround(ns: seq<Node>, l: seq<nat>, i: nat, r: seq<nat>)
    requires StablySorted(ns, l + [i] + r)
    ensures forall j :: j in l ==> Start(ns, j) <= Start(ns, i)
    ensures forall j :: j in r ==> Start(ns, i) <= Start(ns, j)
  {
    assert [] + (l + [i] + r) + [] == l + [i] + r;
    SortedMiddle(ns, [], l, i, r, []);
  }

  lemma SortedPrecedes(ns: seq<Node>, l: seq<nat>, i: nat, r: seq<nat>)
    requires StablySorted(ns, l + [i] + r)
    ensures forall j :: j in l ==> Precedes(ns, j, i)
  {
    var s := l + [i] + r;
    forall j | j in l ensures Precedes(ns, j, i) {
      var q :| 0 <= q < |l| && l[q] == j;
      assert s[q] == j && s[|l|] == i;
    }
  }

  /** Among ranges with ordered ends, the walk finds an address that one of them contains. */
  lemma {:induction false} SearchComplete(ns: seq<Node>, next: nat, t: Tree, address: nat, x: nat)
    requires next <= |ns| && EndsOrdered(ns, next)
    requires Distinct(t) && (forall i :: i in Ids(t) ==> 1 <= i < next) && StablySorted(ns, InOrder(t))
    requires x in Ids(t) && Contains(ns[x].mapping, address)
    ensures Search(ns, t, address) != 0
  {
    hide StablySorted, EndsOrdered, Precedes;
    var Branch(_, l, i, r) := t;
    assert i in Ids(t) && Ids(l) <= Ids(t) && Ids(r) <= Ids(t);
    SortedParts(ns, InOrder(l), i, InOrder(r));
    SortedAround(ns, InOrder(l), i, InOrder(r));
    SortedPrecedes(ns, InOrder(l), i, InOrder(r));
    IdsInOrder(l);
    IdsInOrder(r);
    if x in Ids(l) {
      EndsBefore(ns, next, x, i);
      SearchComplete(ns, next, l, address, x);
    } else if x in Ids(r) {
      SearchComplete(ns, next, r, address, x);
    }
  }

  lemma EndsBefore(ns: seq<Node>, next: nat, x: nat, i: nat)
    requires next <= |ns| && EndsOrdered(ns, next) && 1 <= x < next && 1 <= i < next && Precedes(ns, x, i)
    ensures ns[x].mapping.end <= ns[i].mapping.end
  {
  }

  /** On ranges with ordered ends the lookup is a linear scan: it finds a mapping
      exactly when some inserted range contains the address, and that range when
      there is only one. */
  lemma {:induction false} SearchIsLinearScan(ns: seq<Node>, root: nat, next: nat, tree: Tree, address: nat)
    requires IsMap(ns, root, next, tree) && EndsOrdered(ns, next)
    ensures Search(ns, tree, address) != 0 <==> LinearScan(ns, 1, next, address) != 0
    ensures InOneRange(ns, next, address) ==> Search(ns, tree, address) == LinearScan(ns, 1, next, address)
  {
    hide StablySorted, RedBlack, Represents, EndsOrdered;
    LinearScanFinds(ns, 1, next, address);
    SearchSound(ns, tree, address);
    var r := LinearScan(ns, 1, next, address);
    if r != 0 {
      SearchComplete(ns, next, tree, address, r);
    }
  }

  // -------------------------------------------------------- the cost of lookup

  function Pow2(n: nat): (p: nat)
    ensures p > 0
  {
    if n == 0 then 1 else 2 * Pow2(n - 1)
  }

  lemma {:induction false} Pow2Monotone(a: nat, b: nat)
    requires a <= b
    ensures Pow2(a) <= Pow2(b)
    decreases b
  {
    if a < b {
      Pow2Monotone(a, b - 1);
    }
  }

  lemma {:induction false} Pow2Double(n: nat)
    ensures Pow2(2 * n) == Pow2(n) * Pow2(n)
  {
    if n > 0 {
      Pow2Double(n - 1);
      assert Pow2(2 * n) == 4 * Pow2(2 * n - 2);
    }
  }

  lemma {:induction false} VisitsWithinHeight(ns: seq<Node>, t: Tree, h: nat, address: nat)
    requires RedBlack(t, h)
    ensures Visits(ns, t, address) <= 2 * h + (if ColorOf(t) == Red then 1 else 0)
  {
    match t
    case Leaf =>
    case Branch(c, l, _, r) =>
      var h' := if c == Black then h - 1 else h;
      VisitsWithinHeight(ns, l, h', address);
      VisitsWithinHeight(ns, r, h', address);
  }

  lemma {:induction false} HeightWithinSize(t: Tree, h: nat)
    requires RedBlack(t, h)
    ensures Pow2(h) <= |InOrder(t)| + 1
  {
    match t
    case Leaf =>
    case Branch(c, l, _, r) =>
      var h' := if c == Black then h - 1 else h;
      HeightWithinSize(l, h');
      HeightWithinSize(r, h');
  }

  lemma {:induction false} SizeOfDistinct(t: Tree)
    requires Distinct(t)
    ensures |InOrder(t)| == |Ids(t)|
  {
    if t.Branch? {
      SizeOfDistinct(t.left);
      SizeOfDistinct(t.right);
    }
  }

  lemma {:induction false} CountUpTo(s: set<nat>, next: nat)
    requires next >= 1 && forall i :: i in s <==> 1 <= i < next
    ensures |s| == next - 1
  {
    if next == 1 {
      assert s == {};
    } else {
      CountUpTo(s - {next - 1}, next - 1);
    }
  }

  /** A lookup among n ranges visits at most 2 log2(n + 1) nodes. */
  lemma {:induction false} VisitsLogarithmic(ns: seq<Node>, root: nat, next: nat, tree: Tree, address: nat)
    requires IsMap(ns, root, next, tree)
    ensures |InOrder(tree)| == next - 1
    ensures Pow2(Visits(ns, tree, address)) <= next * next
  {
    hide StablySorted, Represents;
    var h := BlackHeight(tree);
    SizeOfDistinct(tree);
    CountUpTo(Ids(tree), next);
    VisitsWithinHeight(ns, tree, h, address);
    HeightWithinSize(tree, h);
    Pow2Monotone(Visits(ns, tree, address), 2 * h);
    Pow2Double(h);
    Squares(Pow2(h), next);
  }

  lemma Squares(a: nat, b: nat)
    requires a <= b
    ensures a * a <= b * b
  {
    assert a * a <= a * b <= b * b;
  }

  // ---------------------------------------------------------- the in-place map

  class Map {
    const mappings: array<Node>
    var root: nat
    var next: nat
    ghost var tree: Tree

    ghost predicate Valid()
      reads this, mappings
    {
      IsMap(mappings[..], root, next, tree)
    }

    /** create_memory_map, for any number of nodes. */
    constructor (capacity: nat)
      requires capacity > 0
      ensures Valid() && fresh(mappings) && mappings.Length == capacity && next == 1 && tree == Leaf
    {
      mappings := new Node[capacity](_ => NIL_NODE);
      root, next, tree := 0, 1, Leaf;
    }

    /** rotate_left. */
    method RotateLeft(n: nat)
      requires n < mappings.Length && mappings[n].right < mappings.Length && mappings[n].parent < mappings.Length
      requires mappings[mappings[n].right].left < mappings.Length
      requires mappings[n].right != n && mappings[mappings[n].right].left !in {n, mappings[n].right}
      requires mappings[n].parent !in {n, mappings[n].right}
      modifies this`root, mappings
      ensures (mappings[..], root) == Rotate(old(mappings[..]), old(root), n, Left)
    {
      var y := mappings[n].right;
      mappings[n] := mappings[n].(right := mappings[y].left);
      if mappings[y].left != 0 {
        var z := mappings[y].left;
        mappings[z] := mappings[z].(parent := n);
      }
      mappings[y] := mappings[y].(parent := mappings[n].parent);
      var p := mappings[n].parent;
      if p == 0 {
        root := y;
      } else if n == mappings[p].left {
        mappings[p] := mappings[p].(left := y);
      } else {
        mappings[p] := mappings[p].(right := y);
      }
      mappings[y] := mappings[y].(left := n);
      mappings[n] := mappings[n].(parent := y);
    }

    /** rotate_right. */
    method RotateRight(n: nat)
      requires n < mappings.Length && mappings[n].left < mappings.Length && mappings[n].parent < mappings.Length
      requires mappings[mappings[n].left].right < mappings.Length
      requires mappings[n].left != n && mappings[mappings[n].left].right !in {n, mappings[n].left}
      requires mappings[n].parent !in {n, mappings[n].left}
      modifies this`root, mappings
      ensures (mappings[..], root) == Rotate(old(mappings[..]), old(root), n, Right)
    {
      var y := mappings[n].left;
      mappings[n] := mappings[n].(left := mappings[y].right);
      if mappings[y].right != 0 {
        var z := mappings[y].right;
        mappings[z] := mappings[z].(parent := n);
      }
      mappings[y] := mappings[y].(parent := mappings[n].parent);
      var p := mappings[n].parent;
      if p == 0 {
        root := y;
      } else if n == mappings[p].left {
        mappings[p] := mappings[p].(left := y);
      } else {
        mappings[p] := mappings[p].(right := y);
      }
      mappings[y] := mappings[y].(right := n);
      mappings[n] := mappings[n].(parent := y);
    }

    /** The branch of fixup for a parent that is a left child. */
    method FixupLeft(n: nat, ghost k0: Context, ghost t0: Tree, ghost h0: nat)
      returns (node: nat, ghost k: Context, ghost t: Tree, ghost h: nat)
      requires mappings.Length > 0 && mappings[0] == NIL_NODE
      requires Fixing(mappings[..], root, k0, t0, n, h0) && RedFrame(k0) && k0.up.dir == Left
      modifies this`root, mappings
      ensures SameContents(old(mappings[..]), mappings[..])
      ensures Fixing(mappings[..], root, k, t, node, h)
      ensures InOrder(Plug(k, t)) == InOrder(Plug(k0, t0)) && ContextSize(k) < ContextSize(k0)
    {
      hide Fixing, InOrder, Plug, RedBlack, Rotate, Mk, ContextSize;
      node, k, t, h := n, k0, t0, h0;
      FixupCases(mappings[..], root, k, t, node, h);
      var p := mappings[node].parent;
      var g := mappings[p].parent;
      var uncle := mappings[g].right;
      if mappings[uncle].color == Red {
        Case1(mappings[..], root, k, t, node, h);
        mappings[p] := mappings[p].(color := Black);
        mappings[uncle] := mappings[uncle].(color := Black);
        mappings[g] := mappings[g].(color := Red);
        node, k, t, h := g, k.up.up, RecolorTree(k, t), h + 1;
      } else {
        if node == mappings[p].right {
          Case2(mappings[..], root, k, t, node, h);
          k, t := InnerContext(k, t), InnerTree(k, t);
          node := p;
          RotateLeft(node);
          FixupCases(mappings[..], root, k, t, node, h);
        }
        Case3(mappings[..], root, k, t, node, h);
        p := mappings[node].parent;
        mappings[p] := mappings[p].(color := Black);
        mappings[g] := mappings[g].(color := Red);
        RotateRight(g);
        k := OuterContext(k);
      }
    }

    /** The branch of fixup for a parent that is a right child. */
    method FixupRight(n: nat, ghost k0: Context, ghost t0: Tree, ghost h0: nat)
      returns (node: nat, ghost k: Context, ghost t: Tree, ghost h: nat)
      requires mappings.Length > 0 && mappings[0] == NIL_NODE
      requires Fixing(mappings[..], root, k0, t0, n, h0) && RedFrame(k0) && k0.up.dir == Right
      modifies this`root, mappings
      ensures SameContents(old(mappings[..]), mappings[..])
      ensures Fixing(mappings[..], root, k, t, node, h)
      ensures InOrder(Plug(k, t)) == InOrder(Plug(k0, t0)) && ContextSize(k) < ContextSize(k0)
    {
      hide Fixing, InOrder, Plug, RedBlack, Rotate, Mk, ContextSize;
      node, k, t, h := n, k0, t0, h0;
      FixupCases(mappings[..], root, k, t, node, h);
      var p := mappings[node].parent;
      var g := mappings[p].parent;
      var uncle := mappings[g].left;
      if mappings[uncle].color == Red {
        Case1(mappings[..], root, k, t, node, h);
        mappings[p] := mappings[p].(color := Black);
        mappings[uncle] := mappings[uncle].(color := Black);
        mappings[g] := mappings[g].(color := Red);
        node, k, t, h := g, k.up.up, RecolorTree(k, t), h + 1;
      } else {
        if node == mappings[p].left {
          Case2(mappings[..], root, k, t, node, h);
          k, t := InnerContext(k, t), InnerTree(k, t);
          node := p;
          RotateRight(node);
          FixupCases(mappings[..], root, k, t, node, h);
        }
        Case3(mappings[..], root, k, t, node, h);
        p := mappings[node].parent;
        mappings[p] := mappings[p].(color := Black);
        mappings[g] := mappings[g].(color := Red);
        RotateLeft(g);
        k := OuterContext(k);
      }
    }

    /** fixup: rebalances the tree around a red node. */
    method Fixup(n: nat, ghost k0: Context, ghost t0: Tree, ghost h0: nat)
      requires mappings.Length > 0 && mappings[0] == NIL_NODE
      requires Fixing(mappings[..], root, k0, t0, n, h0)
      modifies this`root, this`tree, mappings
      ensures SameContents(old(mappings[..]), mappings[..])
      ensures Represents(mappings[..], tree, root, 0) && Distinct(tree)
      ensures RedBlack(tree, BlackHeight(tree)) && ColorOf(tree) == Black
      ensures InOrder(tree) == InOrder(Plug(k0, t0))
      ensures !RedFrame(k0) ==> tree == if k0.Top? then Blackened(t0) else Plug(k0, t0)
    {
      hide Fixing, InOrder, Plug, RedBlack, Distinct, Represents, Rotate, Mk, ContextSize;
      var node: nat := n;
      ghost var k, t, h := k0, t0, h0;
      FixupCases(mappings[..], root, k, t, node, h);
      while mappings[mappings[node].parent].color == Red
        invariant node < mappings.Length && mappings[node].parent < mappings.Length
        invariant SameContents(old(mappings[..]), mappings[..])
        invariant Fixing(mappings[..], root, k, t, node, h)
        invariant mappings[mappings[node].parent].color == Red <==> RedFrame(k)
        invariant InOrder(Plug(k, t)) == InOrder(Plug(k0, t0))
        invariant !RedFrame(k0) ==> k == k0 && t == t0
        decreases ContextSize(k)
      {
        FixupCases(mappings[..], root, k, t, node, h);
        if mappings[node].parent == mappings[mappings[mappings[node].parent].parent].left {
          node, k, t, h := FixupLeft(node, k, t, h);
        } else {
          node, k, t, h := FixupRight(node, k, t, h);
        }
        FixupCases(mappings[..], root, k, t, node, h);
      }
      FixupEnd(mappings[..], root, k, t, node, h);
      mappings[root] := mappings[root].(color := Black);
      tree := if k.Top? then Blackened(t) else Plug(k, t);
    }

    /** map_address_range: false when the pool is exhausted. */
    method MapAddressRange(start: nat, length: nat, device: nat) returns (ok: bool)
      requires Valid() && start < 0x1_0000_0000 && length < 0x1_0000_0000
      modifies this, mappings
      ensures Valid()
      ensures ok == (old(next) < mappings.Length - 1)
      ensures !ok ==> mappings[..] == old(mappings[..]) && root == old(root) && next == old(next) && tree == old(tree)
      ensures ok ==>
        && next == old(next) + 1
        && mappings[old(next)].mapping == Mapping(start, length, Word32(start + length - 1), device)
        && (forall i :: 1 <= i < old(next) ==> mappings[i].mapping == old(mappings[i].mapping))
        && InOrder(tree) == Inserted(mappings[..], old(InOrder(tree)), old(next))
      ensures ok && !RedParent(old(mappings[..]), old(tree), start) ==>
        tree == if old(tree).Leaf? then Branch(Black, Leaf, old(next), Leaf) else Hung(old(mappings[..]), old(tree), start, old(next))
    {
      hide IsMap, Walking, Fixing, Focus, InOrder, Plug, RedBlack, Distinct, Represents, ContextRepresents, Inserted, StablySorted,
        OnTheWay, Hung, RedParent;
      IsMapFacts(mappings[..], root, next, tree);
      var check: nat, cur: nat := root, 0;
      var end := Word32(start + length - 1);
      if next >= mappings.Length - 1 {
        return false;
      }
      var newNode := next;
      next := next + 1;
      ghost var ns, k, t, h := mappings[..], Top, tree, BlackHeight(tree);
      WalkBegin(ns, root, newNode, tree, start);
      OnTheWayBegin(ns, tree, start, newNode);
      while check != 0
        invariant mappings[..] == ns && cur < |ns| && root == old(root) && tree == old(tree) && next == newNode + 1
        invariant Walking(ns, root, tree, k, t, h, check, cur, start)
        invariant OnTheWay(ns, tree, k, t, start, newNode)
        decreases t
      {
        WalkStep(ns, root, tree, k, t, h, check, cur, start);
        OnTheWayStep(ns, tree, k, t, start, newNode);
        cur := check;
        ghost var d := if start < Start(ns, check) then Left else Right;
        k, t, h := Frame(d, t.color, t.id, if d == Left then t.right else t.left, k),
                   if d == Left then t.left else t.right, HeightBelow(t, h);
        check := if start < mappings[cur].mapping.start then mappings[cur].left else mappings[cur].right;
      }
      WalkEnd(ns, root, newNode, tree, k, t, h, cur, start);
      WalkEndOrder(ns, root, newNode, tree, k, h, cur, start);
      if cur == 0 {
        root := newNode;
      } else if start < mappings[cur].mapping.start {
        mappings[cur] := mappings[cur].(left := newNode);
      } else {
        mappings[cur] := mappings[cur].(right := newNode);
      }
      mappings[newNode] := mappings[newNode].(left := 0, right := 0, parent := cur);
      mappings[newNode] := mappings[newNode].(mapping := Mapping(start, length, end, device));
      mappings[newNode] := mappings[newNode].(color := Red);
      HookLeaf(ns, mappings[..], old(root), root, k, cur, newNode);
      ghost var leaf := Branch(Red, Leaf, newNode, Leaf);
      OnTheWayEnd(ns, tree, k, start, newNode);
      RedLeaf(mappings[..], root, newNode, k);
      Fixup(newNode, k, leaf, 0);
      InsertionComplete(ns, mappings[..], root, newNode, old(tree), tree, Before(k), After(k));
      ok := true;
    }

    /** resolve_mapped_address on a non-empty map; 0 stands for NULL. */
    method Resolve(address: nat) returns (r: nat)
      requires Valid() && root != 0
      ensures r == Search(mappings[..], tree, address)
      ensures r != 0 ==> 1 <= r < next && Contains(mappings[r].mapping, address)
      ensures EndsOrdered(mappings[..], next) ==>
        && (r != 0 <==> LinearScan(mappings[..], 1, next, address) != 0)
        && (InOneRange(mappings[..], next, address) ==> r == LinearScan(mappings[..], 1, next, address))
      ensures Pow2(Visits(mappings[..], tree, address)) <= next * next
    {
      hide StablySorted, RedBlack, EndsOrdered, InOneRange, LinearScan, Pow2, Visits;
      ghost var ns := mappings[..];
      if EndsOrdered(ns, next) {
        SearchIsLinearScan(ns, root, next, tree, address);
      }
      SearchSound(ns, tree, address);
      VisitsLogarithmic(ns, root, next, tree, address);
      var cur := root;
      ghost var t, p := tree, 0;
      while true
        invariant cur != 0 && Represents(ns, t, cur, p) && Search(ns, t, address) == Search(ns, tree, address)
        decreases t
      {
        p := cur;
        if address < mappings[cur].mapping.start {
          cur := mappings[cur].left;
          t := t.left;
        } else if address > mappings[cur].mapping.end {
          cur := mappings[cur].right;
          t := t.right;
        } else {
          return cur;
        }
        if cur == 0 {
          return 0;
        }
      }
    }
  }

  datatype Range = Range(start: nat, length: nat, device: nat)

  function MappingOf(r: Range): Mapping { Mapping(r.start, r.length, Word32(r.start + r.length - 1), r.device) }

  /** bus_init: maps a table of ranges into a fresh map.  It succeeds exactly when
      the pool has two nodes more than the table has entries (17 of 19). */
  method MapTable(table: seq<Range>, capacity: nat) returns (map': Map, ok: bool)
    requires capacity > 0
    requires forall r :: r in table ==> r.start < 0x1_0000_0000 && r.length < 0x1_0000_0000
    ensures fresh(map') && map'.Valid() && map'.mappings.Length == capacity
    ensures ok <==> table == [] || |table| + 2 <= capacity
    ensures ok ==> map'.next == |table| + 1
    ensures ok ==> forall i :: 0 <= i < |table| ==> map'.mappings[i + 1].mapping == MappingOf(table[i])
  {
    hide IsMap;
    map' := new Map(capacity);
    ok := true;
    for i := 0 to |table|
      invariant fresh(map') && fresh(map'.mappings) && map'.Valid() && map'.mappings.Length == capacity && map'.next == i + 1
      invariant i > 0 ==> i + 2 <= capacity
      invariant forall j :: 0 <= j < i ==> map'.mappings[j + 1].mapping == MappingOf(table[j])
    {
      ok := map'.MapAddressRange(table[i].start, table[i].length, table[i].device);
      if !ok {
        return;
      }
    }
  }

  lemma {:induction false} RedLeaf(ns: seq<Node>, root: nat, x: nat, k: Context)
    requires Focus(ns, root, k, Branch(Red, Leaf, x, Leaf), x) && RedBlackContext(k, 0)
    ensures Fixing(ns, root, k, Branch(Red, Leaf, x, Leaf), x, 0)
    ensures InOrder(Plug(k, Branch(Red, Leaf, x, Leaf))) == Before(k) + [x] + After(k)
  {
    PlugInOrder(k, Branch(Red, Leaf, x, Leaf));
  }

  lemma IsMapFacts(ns: seq<Node>, root: nat, next: nat, tree: Tree)
    requires IsMap(ns, root, next, tree)
    ensures 1 <= next <= |ns| && ns[0] == NIL_NODE && IsMap'(ns, next, tree)
  {
  }
}

/** The linked nodes of bus/memorymap.c as values: a pool of nodes that refer to
    one another by index, index 0 being the sentinel `nil`.  `Represents` says
    which tree a pool holds; `Rotate` is a rotation of the pool. */
module MemoryMapTree {

  datatype Color = Black | Red

  /** struct memory_mapping; `device` stands for the instance and its two callbacks. */
  datatype Mapping = Mapping(start: nat, length: nat, end: nat, device: nat)

  datatype Node = Node(left: nat, parent: nat, right: nat, mapping: Mapping, color: Color)

  const NIL_NODE := Node(0, 0, 0, Mapping(0, 0, 0, 0), Black)

  datatype Dir = Left | Right

  function Flip(d: Dir): Dir { if d == Left then Right else Left }

  function Child(n: Node, d: Dir): nat { if d == Left then n.left else n.right }

  function WithChild(n: Node, d: Dir, x: nat): Node { if d == Left then n.(left := x) else n.(right := x) }

  // ------------------------------------------------------------------- trees

  datatype Tree = Leaf | Branch(color: Color, left: Tree, id: nat, right: Tree)

  /** The node with `near` on its d side and `far` on the other. */
  function Mk(c: Color, i: nat, d: Dir, near: Tree, far: Tree): Tree {
    if d == Left then Branch(c, near, i, far) else Branch(c, far, i, near)
  }

  ghost function Ids(t: Tree): set<nat> {
    match t
    case Leaf => {}
    case Branch(_, l, i, r) => Ids(l) + {i} + Ids(r)
  }

  ghost predicate Distinct(t: Tree) {
    match t
    case Leaf => true
    case Branch(_, l, i, r) => Distinct(l) && Distinct(r) && i !in Ids(l) && i !in Ids(r) && Ids(l) !! Ids(r)
  }

  function InOrder(t: Tree): seq<nat> {
    match t
    case Leaf => []
    case Branch(_, l, i, r) => InOrder(l) + [i] + InOrder(r)
  }

  function ColorOf(t: Tree): Color { if t.Leaf? then Black else t.color }

  /** No red node has a red child, and every path down has h black nodes. */
  ghost predicate RedBlack(t: Tree, h: nat)
    decreases t
  {
    match t
    case Leaf => h == 0
    case Branch(Red, l, _, r) => ColorOf(l) == Black && ColorOf(r) == Black && RedBlack(l, h) && RedBlack(r, h)
    case Branch(Black, l, _, r) => h > 0 && RedBlack(l, h - 1) && RedBlack(r, h - 1)
  }

  /** The subtree `t` is linked up from index x, below the node p. */
  ghost predicate Represents(ns: seq<Node>, t: Tree, x: nat, p: nat)
    decreases t
  {
    match t
    case Leaf => x == 0
    case Branch(c, l, i, r) =>
      && x == i && 0 < i < |ns|
      && ns[i].color == c && ns[i].parent == p
      && Represents(ns, l, ns[i].left, i)
      && Represents(ns, r, ns[i].right, i)
  }

  // ---------------------------------------------------------------- contexts

  /** A tree with a hole: the path from the hole up to the root. */
  datatype Context = Top | Frame(dir: Dir, color: Color, id: nat, sibling: Tree, up: Context)

  function Plug(k: Context, t: Tree): Tree
    decreases k
  {
    match k
    case Top => t
    case Frame(d, c, i, s, up) => Plug(up, Mk(c, i, d, t, s))
  }

  ghost function ContextIds(k: Context): set<nat> {
    match k
    case Top => {}
    case Frame(_, _, i, s, up) => {i} + Ids(s) + ContextIds(up)
  }

  ghost predicate ContextDistinct(k: Context) {
    match k
    case Top => true
    case Frame(_, _, i, s, up) =>
      Distinct(s) && ContextDistinct(up) && i !in Ids(s) && i !in ContextIds(up) && Ids(s) !! ContextIds(up)
  }

  /** The context is linked up, its hole being index x below the node p. */
  ghost predicate ContextRepresents(ns: seq<Node>, root: nat, k: Context, x: nat, p: nat)
    decreases k
  {
    match k
    case Top => root == x && p == 0
    case Frame(d, c, i, s, up) =>
      && p == i && 0 < i < |ns|
      && ns[i].color == c && Child(ns[i], d) == x
      && Represents(ns, s, Child(ns[i], Flip(d)), i)
      && ContextRepresents(ns, root, up, i, ns[i].parent)
  }

  /** In-order, what comes before and after the hole. */
  function Before(k: Context): seq<nat> {
    match k
    case Top => []
    case Frame(d, _, i, s, up) => if d == Left then Before(up) else Before(up) + InOrder(s) + [i]
  }

  function After(k: Context): seq<nat> {
    match k
    case Top => []
    case Frame(d, _, i, s, up) => if d == Left then [i] + InOrder(s) + After(up) else After(up)
  }

  lemma {:induction false} PlugInOrder(k: Context, t: Tree)
    ensures InOrder(Plug(k, t)) == Before(k) + InOrder(t) + After(k)
    decreases k
  {
    match k
    case Top =>
    case Frame(d, c, i, s, up) => PlugInOrder(up, Mk(c, i, d, t, s));
  }

  lemma {:induction false} PlugIds(k: Context, t: Tree)
    ensures Ids(Plug(k, t)) == ContextIds(k) + Ids(t)
    ensures Distinct(Plug(k, t)) == (ContextDistinct(k) && Distinct(t) && ContextIds(k) !! Ids(t))
    decreases k
  {
    match k
    case Top =>
    case Frame(d, c, i, s, up) => PlugIds(up, Mk(c, i, d, t, s));
  }

  lemma {:induction false} PlugRepresents(ns: seq<Node>, root: nat, k: Context, t: Tree, x: nat, p: nat)
    requires Represents(ns, t, x, p) && ContextRepresents(ns, root, k, x, p)
    ensures Represents(ns, Plug(k, t), root, 0)
    decreases k
  {
    match k
    case Top =>
    case Frame(d, c, i, s, up) => PlugRepresents(ns, root, up, Mk(c, i, d, t, s), i, ns[i].parent);
  }

  // ------------------------------------------------------------------ frames

  /** Two pools agree on the links and colour of node i. */
  predicate SameLinks(ns: seq<Node>, ns': seq<Node>, i: nat) {
    i < |ns| && i < |ns'| && ns'[i].(mapping := ns[i].mapping) == ns[i]
  }

  lemma RepresentsFrame(ns: seq<Node>, ns': seq<Node>, t: Tree, x: nat, p: nat)
    requires Represents(ns, t, x, p)
    requires forall i :: i in Ids(t) ==> SameLinks(ns, ns', i)
    ensures Represents(ns', t, x, p)
  {
    match t
    case Leaf =>
    case Branch(c, l, i, r) =>
      assert SameLinks(ns, ns', i);
  }

  lemma ContextFrame(ns: seq<Node>, ns': seq<Node>, root: nat, k: Context, x: nat, p: nat)
    requires ContextRepresents(ns, root, k, x, p)
    requires forall i :: i in ContextIds(k) ==> SameLinks(ns, ns', i)
    ensures ContextRepresents(ns', root, k, x, p)
  {
    match k
    case Top =>
    case Frame(d, c, i, s, up) =>
      assert SameLinks(ns, ns', i);
      RepresentsFrame(ns, ns', s, Child(ns[i], Flip(d)), i);
  }

  lemma RepresentedIds(ns: seq<Node>, t: Tree, x: nat, p: nat)
    requires Represents(ns, t, x, p)
    ensures forall i :: i in Ids(t) ==> 0 < i < |ns|
    ensures t.Leaf? <==> x == 0
    ensures x != 0 ==> x in Ids(t)
  {
  }

  lemma ContextRepresentedIds(ns: seq<Node>, root: nat, k: Context, x: nat, p: nat)
    requires ContextRepresents(ns, root, k, x, p)
    ensures forall i :: i in ContextIds(k) ==> 0 < i < |ns|
    ensures k.Top? <==> p == 0
    ensures p != 0 ==> p in ContextIds(k)
  {
    match k
    case Top =>
    case Frame(d, c, i, s, up) => RepresentedIds(ns, s, Child(ns[i], Flip(d)), i);
  }

  /** Only the parent link of a subtree's root tells whose child it is. */
  lemma Reparent(ns: seq<Node>, ns': seq<Node>, t: Tree, x: nat, p: nat, q: nat)
    requires Represents(ns, t, x, p) && Distinct(t)
    requires forall i :: i in Ids(t) && i != x ==> SameLinks(ns, ns', i)
    requires x != 0 ==> x < |ns| && x < |ns'| && ns'[x].(mapping := ns[x].mapping) == ns[x].(parent := q)
    ensures Represents(ns', t, x, q)
  {
    match t
    case Leaf =>
    case Branch(c, l, i, r) =>
      RepresentsFrame(ns, ns', l, ns[i].left, i);
      RepresentsFrame(ns, ns', r, ns[i].right, i);
  }

  /** Replacing the hole's index changes one link of the innermost frame. */
  lemma Rehang(ns: seq<Node>, ns': seq<Node>, root: nat, root': nat, k: Context, x: nat, y: nat, p: nat)
    requires ContextRepresents(ns, root, k, x, p) && ContextDistinct(k)
    requires forall i :: i in ContextIds(k) && i != p ==> SameLinks(ns, ns', i)
    requires if k.Top? then root' == y
             else root' == root && p < |ns| && p < |ns'| && ns'[p].(mapping := ns[p].mapping) == WithChild(ns[p], k.dir, y)
    ensures ContextRepresents(ns', root', k, y, p)
  {
    match k
    case Top =>
    case Frame(d, c, i, s, up) =>
      RepresentsFrame(ns, ns', s, Child(ns[i], Flip(d)), i);
      ContextFrame(ns, ns', root, up, i, ns[i].parent);
  }

  // --------------------------------------------------------------- rotations

  /** rotate_left (d == Left) and rotate_right (d == Right), as the stores they do in order. */
  function Rotate(ns: seq<Node>, root: nat, n: nat, d: Dir): (r: (seq<Node>, nat))
    requires n < |ns| && Child(ns[n], Flip(d)) < |ns|
    requires Child(ns[Child(ns[n], Flip(d))], d) < |ns| && ns[n].parent < |ns|
    ensures |r.0| == |ns|
  {
    var y := Child(ns[n], Flip(d));
    var mid := Child(ns[y], d);
    var ns1 := ns[n := WithChild(ns[n], Flip(d), mid)];
    var ns2 := if mid != 0 then ns1[mid := ns1[mid].(parent := n)] else ns1;
    var ns3 := ns2[y := ns2[y].(parent := ns[n].parent)];
    var p := ns[n].parent;
    var ns4 := if p == 0 then ns3
               else if n == ns3[p].left then ns3[p := ns3[p].(left := y)] else ns3[p := ns3[p].(right := y)];
    var ns5 := ns4[y := WithChild(ns4[y], d, n)];
    (ns5[n := ns5[n].(parent := y)], if p == 0 then y else root)
  }

  /** The subtree at n before a rotation toward d, and after it. */
  function Unrotated(d: Dir, cn: Color, n: nat, a: Tree, cy: Color, y: nat, b: Tree, e: Tree): Tree {
    Mk(cn, n, d, a, Mk(cy, y, d, b, e))
  }

  function Rotated(d: Dir, cn: Color, n: nat, a: Tree, cy: Color, y: nat, b: Tree, e: Tree): Tree {
    Mk(cy, y, d, Mk(cn, n, d, a, b), e)
  }

  lemma {:induction false} MkOrder(c: Color, i: nat, d: Dir, near: Tree, far: Tree)
    ensures InOrder(Mk(c, i, d, near, far)) ==
      if d == Left then InOrder(near) + [i] + InOrder(far) else InOrder(far) + [i] + InOrder(near)
  {
  }

  lemma {:induction false} MkFacts(ns: seq<Node>, c: Color, i: nat, d: Dir, near: Tree, far: Tree, x: nat, p: nat)
    ensures Ids(Mk(c, i, d, near, far)) == {i} + Ids(near) + Ids(far)
    ensures Distinct(Mk(c, i, d, near, far)) ==
      (Distinct(near) && Distinct(far) && i !in Ids(near) && i !in Ids(far) && Ids(near) !! Ids(far))
    ensures Represents(ns, Mk(c, i, d, near, far), x, p) ==
      (x == i && 0 < i < |ns| && ns[i].color == c && ns[i].parent == p
       && Represents(ns, near, Child(ns[i], d), i) && Represents(ns, far, Child(ns[i], Flip(d)), i))
  {
  }

  lemma {:induction false} RotationKeepsOrder(d: Dir, cn: Color, n: nat, a: Tree, cy: Color, y: nat, b: Tree, e: Tree)
    ensures InOrder(Rotated(d, cn, n, a, cy, y, b, e)) == InOrder(Unrotated(d, cn, n, a, cy, y, b, e))
  {
    hide InOrder, Mk;
    var at, bt, et := InOrder(a), InOrder(b), InOrder(e);
    MkOrder(cn, n, d, a, Mk(cy, y, d, b, e));
    MkOrder(cy, y, d, b, e);
    MkOrder(cy, y, d, Mk(cn, n, d, a, b), e);
    MkOrder(cn, n, d, a, b);
    if d == Left {
      assert (at + [n] + bt) + [y] + et == at + [n] + (bt + [y] + et);
    } else {
      assert et + [y] + (bt + [n] + at) == (et + [y] + bt) + [n] + at;
    }
  }

  lemma {:induction false} RotationKeepsIds(d: Dir, cn: Color, n: nat, a: Tree, cy: Color, y: nat, b: Tree, e: Tree)
    ensures Ids(Rotated(d, cn, n, a, cy, y, b, e)) == Ids(Unrotated(d, cn, n, a, cy, y, b, e)) == {n, y} + Ids(a) + Ids(b) + Ids(e)
    ensures Distinct(Unrotated(d, cn, n, a, cy, y, b, e)) <==>
      (Distinct(a) && Distinct(b) && Distinct(e) && n != y
       && Ids(a) !! Ids(b) && Ids(a) !! Ids(e) && Ids(b) !! Ids(e) && {n, y} !! (Ids(a) + Ids(b) + Ids(e)))
    ensures Distinct(Unrotated(d, cn, n, a, cy, y, b, e)) ==> Distinct(Rotated(d, cn, n, a, cy, y, b, e))
  {
    hide Ids, Distinct, Mk;
    MkFacts([], cn, n, d, a, Mk(cy, y, d, b, e), 0, 0);
    MkFacts([], cy, y, d, b, e, 0, 0);
    MkFacts([], cy, y, d, Mk(cn, n, d, a, b), e, 0, 0);
    MkFacts([], cn, n, d, a, b, 0, 0);
  }

  /** The parts of a represented subtree about to be rotated. */
  lemma {:induction false} UnrotatedParts(ns: seq<Node>, d: Dir, cn: Color, n: nat, a: Tree, cy: Color, y: nat, b: Tree, e: Tree, p: nat)
    requires Represents(ns, Unrotated(d, cn, n, a, cy, y, b, e), n, p)
    ensures 0 < n < |ns| && 0 < y < |ns| && Child(ns[n], Flip(d)) == y
    ensures ns[n].parent == p && ns[n].color == cn && ns[y].parent == n && ns[y].color == cy
    ensures Represents(ns, a, Child(ns[n], d), n) && Represents(ns, b, Child(ns[y], d), y) && Represents(ns, e, Child(ns[y], Flip(d)), y)
  {
    hide Represents, Mk;
    MkFacts(ns, cn, n, d, a, Mk(cy, y, d, b, e), n, p);
    MkFacts(ns, cy, y, d, b, e, Child(ns[n], Flip(d)), n);
  }

  /** What a rotation stores where. */
  lemma RotateStores(ns: seq<Node>, root: nat, n: nat, d: Dir, y: nat, mid: nat, p: nat)
    requires 0 < n < |ns| && 0 < y < |ns| && mid < |ns| && p < |ns|
    requires y == Child(ns[n], Flip(d)) && mid == Child(ns[y], d) && p == ns[n].parent
    requires n != y && mid !in {n, y} && p !in {n, y} && (mid == p ==> mid == 0)
    requires p != 0 ==> ns[p].left == n || ns[p].right == n
    ensures var (ns', root') := Rotate(ns, root, n, d);
      && ns'[n] == WithChild(ns[n], Flip(d), mid).(parent := y)
      && ns'[y] == WithChild(ns[y], d, n).(parent := p)
      && (mid != 0 ==> ns'[mid] == ns[mid].(parent := n))
      && (p != 0 ==> ns'[p] == WithChild(ns[p], if ns[p].left == n then Left else Right, y))
      && root' == (if p == 0 then y else root)
  {
  }

  lemma RotateElsewhere(ns: seq<Node>, root: nat, n: nat, d: Dir, y: nat, mid: nat, p: nat)
    requires 0 < n < |ns| && 0 < y < |ns| && mid < |ns| && p < |ns|
    requires y == Child(ns[n], Flip(d)) && mid == Child(ns[y], d) && p == ns[n].parent
    ensures var (ns', _) := Rotate(ns, root, n, d);
      forall i :: 0 <= i < |ns| && i !in {n, y} && (i != mid || mid == 0) && (i != p || p == 0) ==> ns'[i] == ns[i]
  {
    hide WithChild, Flip, Child;
  }

  /** The pool keeps its mappings and its sentinel. */
  predicate SameContents(ns: seq<Node>, ns': seq<Node>) {
    && |ns'| == |ns|
    && (forall i :: 0 <= i < |ns| ==> ns'[i].mapping == ns[i].mapping)
    && (|ns| > 0 ==> ns'[0] == ns[0])
  }

  /** The three subtrees and the context survive the stores, rehung. */
  lemma {:induction false} RotatePieces(ns: seq<Node>, root: nat, k: Context, d: Dir, n: nat, a: Tree, y: nat, b: Tree, e: Tree, p: nat)
    requires 0 < n < |ns| && 0 < y < |ns| && n != y && Child(ns[n], Flip(d)) == y && ns[n].parent == p
    requires Represents(ns, a, Child(ns[n], d), n) && Represents(ns, b, Child(ns[y], d), y) && Represents(ns, e, Child(ns[y], Flip(d)), y)
    requires ContextRepresents(ns, root, k, n, p) && ContextDistinct(k)
    requires Distinct(b) && Ids(a) !! Ids(b) && Ids(b) !! Ids(e)
    requires {n, y} !! (Ids(a) + Ids(b) + Ids(e)) && ContextIds(k) !! ({n, y} + Ids(a) + Ids(b) + Ids(e))
    ensures Child(ns[y], d) < |ns| && p < |ns|
    ensures var (ns', root') := Rotate(ns, root, n, d);
      && ns'[n] == WithChild(ns[n], Flip(d), Child(ns[y], d)).(parent := y)
      && ns'[y] == WithChild(ns[y], d, n).(parent := p)
      && Represents(ns', a, Child(ns[n], d), n) && Represents(ns', b, Child(ns[y], d), n)
      && Represents(ns', e, Child(ns[y], Flip(d)), y) && ContextRepresents(ns', root', k, y, p)
      && SameContents(ns, ns')
  {
    hide Rotate, Represents, ContextRepresents, Ids, Distinct, ContextIds, ContextDistinct;
    var mid := Child(ns[y], d);
    ContextRepresentedIds(ns, root, k, n, p);
    RepresentedIds(ns, a, Child(ns[n], d), n);
    RepresentedIds(ns, b, mid, y);
    RepresentedIds(ns, e, Child(ns[y], Flip(d)), y);
    HoleSide(ns, root, k, n, p);
    RotateStores(ns, root, n, d, y, mid, p);
    RotateElsewhere(ns, root, n, d, y, mid, p);
    var (ns', root') := Rotate(ns, root, n, d);
    RepresentsFrame(ns, ns', a, Child(ns[n], d), n);
    Reparent(ns, ns', b, mid, y, n);
    RepresentsFrame(ns, ns', e, Child(ns[y], Flip(d)), y);
    Rehang(ns, ns', root, root', k, n, y, p);
  }

  /** A rotation of the pool rotates the represented tree and leaves the context alone. */
  lemma {:induction false} RotateCorrect(ns: seq<Node>, root: nat, k: Context, d: Dir, cn: Color, n: nat, a: Tree, cy: Color, y: nat, b: Tree, e: Tree, p: nat)
    requires var t := Unrotated(d, cn, n, a, cy, y, b, e);
      && Represents(ns, t, n, p) && ContextRepresents(ns, root, k, n, p)
      && Distinct(t) && ContextDistinct(k) && ContextIds(k) !! Ids(t)
    ensures n < |ns| && y < |ns| && p < |ns| && Child(ns[n], Flip(d)) == y && Child(ns[y], d) < |ns| && ns[n].parent == p
    ensures var (ns', root') := Rotate(ns, root, n, d);
      && Represents(ns', Rotated(d, cn, n, a, cy, y, b, e), y, p)
      && ContextRepresents(ns', root', k, y, p)
      && SameContents(ns, ns')
  {
    hide Rotate, Represents, ContextRepresents, Mk, Ids, Distinct, ContextIds, ContextDistinct, SameContents;
    UnrotatedParts(ns, d, cn, n, a, cy, y, b, e, p);
    RotationKeepsIds(d, cn, n, a, cy, y, b, e);
    RotatePieces(ns, root, k, d, n, a, y, b, e, p);
    var (ns', root') := Rotate(ns, root, n, d);
    MkFacts(ns', cn, n, d, a, b, n, y);
    MkFacts(ns', cy, y, d, Mk(cn, n, d, a, b), e, y, p);
  }

  /** The parent's link that holds the hole is the one the context says. */
  lemma HoleSide(ns: seq<Node>, root: nat, k: Context, x: nat, p: nat)
    requires ContextRepresents(ns, root, k, x, p) && x != 0 && x !in ContextIds(k)
    ensures p != 0 ==> p < |ns| && !k.Top? && (ns[p].left == x) == (k.dir == Left) && (ns[p].right == x) == (k.dir == Right)
  {
    match k
    case Top =>
    case Frame(d, c, i, s, up) => RepresentedIds(ns, s, Child(ns[i], Flip(d)), i);
  }
}

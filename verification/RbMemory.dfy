/** Red-black trees in memory: nodes that link to their children and to their parent. */
module RbMemory {

  /** `RB_ENTRY`; 0 is the null pointer. */
  datatype Link = Link(left: nat, right: nat, parent: nat, red: bool)
  {
    function Kid(l: bool): nat { if l then left else right }
    function SetKid(l: bool, x: nat): Link { if l then this.(left := x) else this.(right := x) }
  }

  type Mem = map<nat, Link>

  datatype Tree = Leaf | Node(left: Tree, id: nat, red: bool, right: Tree)

  function Root(t: Tree): nat {
    if t.Leaf? then 0 else t.id
  }

  /** The nodes in order. */
  function Ids(t: Tree): seq<nat> {
    if t.Leaf? then [] else Ids(t.left) + [t.id] + Ids(t.right)
  }

  /** A node with a near child, on the left if `l`, and a far one. */
  function Mk(l: bool, near: Tree, id: nat, red: bool, far: Tree): (t: Tree)
    ensures t.Node? && t.id == id && t.red == red
  {
    if l then Node(near, id, red, far) else Node(far, id, red, near)
  }

  /** The memory holds a tree below node `p`. */
  ghost predicate Is(m: Mem, p: nat, t: Tree)
    decreases t
  {
    t.Node? ==>
      && t.id != 0 && t.id in m && m[t.id] == Link(Root(t.left), Root(t.right), p, t.red)
      && Is(m, t.id, t.left) && Is(m, t.id, t.right)
  }

  /** One step up from a place in a tree: the place is the left child of node `id`, or the right
      one, and the other child is `other`. */
  datatype Step = Step(left: bool, id: nat, red: bool, other: Tree)

  function Up(s: Step, t: Tree): Tree {
    Mk(s.left, t, s.id, s.red, s.other)
  }

  /** The way from a place up to the root. */
  type Path = seq<Step>

  function Plug(path: Path, t: Tree): Tree {
    if path == [] then t else Plug(path[1..], Up(path[0], t))
  }

  /** The nodes before and after a place. */
  function Before(path: Path): seq<nat> {
    if path == [] then []
    else Before(path[1..]) + if path[0].left then [] else Ids(path[0].other) + [path[0].id]
  }

  function After(path: Path): seq<nat> {
    if path == [] then []
    else (if path[0].left then [path[0].id] + Ids(path[0].other) else []) + After(path[1..])
  }

  /** All nodes of a tree with the place `path` in it, where `t` is. */
  function Around(path: Path, t: Tree): seq<nat> {
    Before(path) + Ids(t) + After(path)
  }

  lemma Regroup(a: seq<nat>, b: seq<nat>, c: seq<nat>, d: seq<nat>)
    ensures (a + b) + c + d == a + (b + c) + d && a + b + (c + d) == a + (b + c) + d
  {
  }

  lemma AroundUp(path: Path, t: Tree)
    requires path != []
    ensures Around(path, t) == Around(path[1..], Up(path[0], t))
  {
    var s, a, b := path[0], Before(path[1..]), After(path[1..]);
    var ids, others := Ids(t), Ids(s.other);
    if s.left {
      assert Before(path) == a;
      Regroup(a, ids, [s.id] + others, b);
      Regroup([], ids, [s.id], others);
      assert Ids(Up(s, t)) == ids + ([s.id] + others);
    } else {
      assert After(path) == b;
      Regroup(a, others + [s.id], ids, b);
    }
  }

  lemma {:induction false} PlugIds(path: Path, t: Tree)
    ensures Ids(Plug(path, t)) == Around(path, t)
    decreases |path|
  {
    if path == [] {
      assert Around(path, t) == Ids(t);
    } else {
      hide Around, Ids, Up;
      AroundUp(path, t);
      PlugIds(path[1..], Up(path[0], t));
    }
  }

  function ParentOf(path: Path): nat {
    if path == [] then 0 else path[0].id
  }

  /** The memory holds the way up from a place where the pointer is `x`. */
  ghost predicate PathIs(m: Mem, root: nat, path: Path, x: nat) {
    if path == [] then root == x
    else
      var s := path[0];
      && s.id != 0 && s.id in m && m[s.id] == Link(0, 0, ParentOf(path[1..]), s.red).SetKid(s.left,
          x).SetKid(!s.left, Root(s.other))
      && Is(m, s.id, s.other) && PathIs(m, root, path[1..], s.id)
  }

  ghost predicate Distinct(ids: seq<nat>) {
    forall i, j :: 0 <= i < j < |ids| ==> ids[i] != ids[j]
  }

  /** The memory holds a tree with the place `path` in it, where `t` is. */
  ghost predicate At(m: Mem, root: nat, path: Path, t: Tree) {
    && Is(m, ParentOf(path), t) && PathIs(m, root, path, Root(t))
    && Distinct(Around(path, t))
  }

  // ----- Moving the place

  lemma StepUp(m: Mem, root: nat, path: Path, t: Tree)
    requires path != []
    ensures At(m, root, path, t) <==> At(m, root, path[1..], Up(path[0], t))
    ensures Around(path, t) == Around(path[1..], Up(path[0], t))
  {
    AroundUp(path, t);
    hide Around, Distinct;
  }

  lemma {:induction false} WholeIs(m: Mem, root: nat, path: Path, t: Tree)
    ensures At(m, root, path, t) <==> At(m, root, [], Plug(path, t))
    decreases |path|
  {
    if path != [] {
      StepUp(m, root, path, t);
      WholeIs(m, root, path[1..], Up(path[0], t));
    }
  }

  // ----- Memory that agrees

  ghost predicate Agree(m: Mem, m': Mem, ids: seq<nat>) {
    forall i :: 0 <= i < |ids| && ids[i] in m ==> ids[i] in m' && m'[ids[i]] == m[ids[i]]
  }

  lemma AgreeParts(m: Mem, m': Mem, a: seq<nat>, b: seq<nat>)
    ensures Agree(m, m', a + b) <==> Agree(m, m', a) && Agree(m, m', b)
  {
    if Agree(m, m', a) && Agree(m, m', b) {
      forall i | 0 <= i < |a + b| && (a + b)[i] in m
        ensures (a + b)[i] in m' && m'[(a + b)[i]] == m[(a + b)[i]]
      {
        if i >= |a| { assert (a + b)[i] == b[i - |a|]; }
      }
    }
    if Agree(m, m', a + b) {
      forall i | 0 <= i < |a| && a[i] in m
        ensures a[i] in m' && m'[a[i]] == m[a[i]]
      {
        assert (a + b)[i] == a[i];
      }
      forall i | 0 <= i < |b| && b[i] in m
        ensures b[i] in m' && m'[b[i]] == m[b[i]]
      {
        assert (a + b)[|a| + i] == b[i];
      }
    }
  }

  lemma {:induction false} IsSame(m: Mem, m': Mem, p: nat, t: Tree)
    requires Is(m, p, t) && Agree(m, m', Ids(t))
    ensures Is(m', p, t)
    decreases t
  {
    hide Agree;
    if t.Node? {
      AgreeParts(m, m', Ids(t.left) + [t.id], Ids(t.right));
      AgreeParts(m, m', Ids(t.left), [t.id]);
      AgreeOne(m, m', t.id);
      IsSame(m, m', t.id, t.left);
      IsSame(m, m', t.id, t.right);
    }
  }

  lemma AgreeOne(m: Mem, m': Mem, x: nat)
    requires Agree(m, m', [x]) && x in m
    ensures x in m' && m'[x] == m[x]
  {
    assert [x][0] == x;
  }

  /** The same tree below another node. */
  lemma IsBelow(m: Mem, m': Mem, p: nat, q: nat, t: Tree)
    requires Is(m, p, t) && t.Node? && Agree(m, m', Ids(t.left)) && Agree(m, m', Ids(t.right))
    requires t.id in m' && m'[t.id] == m[t.id].(parent := q)
    ensures Is(m', q, t)
  {
    hide Agree;
    IsSame(m, m', t.id, t.left);
    IsSame(m, m', t.id, t.right);
  }

  /** The way up, where the memory agrees but for the pointer to the place. */
  lemma {:induction false} PathSame(m: Mem, m': Mem, root: nat, root': nat, path: Path, x: nat, y: nat)
    requires PathIs(m, root, path, x)
    requires path == [] ==> root' == y
    requires path != [] ==>
               && root' == root && Agree(m, m', Ids(path[0].other)) && PathAgree(m, m', path[1..])
               && path[0].id in m' && m'[path[0].id] == m[path[0].id].SetKid(path[0].left, y)
    ensures PathIs(m', root', path, y)
  {
    hide Agree;
    if path != [] {
      IsSame(m, m', path[0].id, path[0].other);
      PathKept(m, m', root, path[1..], path[0].id);
    }
  }

  ghost predicate PathAgree(m: Mem, m': Mem, path: Path) {
    Agree(m, m', Before(path)) && Agree(m, m', After(path))
  }

  lemma PathParts(m: Mem, m': Mem, path: Path)
    requires path != [] && PathAgree(m, m', path)
    ensures Agree(m, m', Ids(path[0].other)) && Agree(m, m', [path[0].id]) && PathAgree(m, m', path[1..])
  {
    hide Agree;
    var s, rest := path[0], path[1..];
    if s.left {
      AgreeParts(m, m', [s.id] + Ids(s.other), After(rest));
      AgreeParts(m, m', [s.id], Ids(s.other));
      assert Before(path) == Before(rest);
    } else {
      AgreeParts(m, m', Before(rest), Ids(s.other) + [s.id]);
      AgreeParts(m, m', Ids(s.other), [s.id]);
      assert After(path) == After(rest);
    }
  }

  lemma {:induction false} PathKept(m: Mem, m': Mem, root: nat, path: Path, x: nat)
    requires PathIs(m, root, path, x) && PathAgree(m, m', path)
    ensures PathIs(m', root, path, x)
    decreases |path|
  {
    hide Agree, PathAgree;
    if path != [] {
      PathParts(m, m', path);
      AgreeOne(m, m', path[0].id);
      IsSame(m, m', path[0].id, path[0].other);
      PathKept(m, m', root, path[1..], path[0].id);
    }
  }

  // ----- Changing nodes

  /** Only nodes of `ch` differ. */
  ghost predicate Changed(m: Mem, m': Mem, ch: set<nat>) {
    forall a :: a in m && a !in ch ==> a in m' && m'[a] == m[a]
  }

  lemma AgreeOff(m: Mem, m': Mem, ids: seq<nat>, ch: set<nat>)
    requires Changed(m, m', ch) && forall x :: x in ch ==> x !in ids
    ensures Agree(m, m', ids)
  {
  }

  lemma NotBoth(a: seq<nat>, b: seq<nat>, i: nat, j: nat)
    requires Distinct(a + b) && i < |a| && j < |b|
    ensures a[i] != b[j]
  {
    assert (a + b)[i] == a[i] && (a + b)[|a| + j] == b[j];
  }

  lemma Apart(a: seq<nat>, b: seq<nat>, x: nat)
    requires Distinct(a + b)
    ensures x in a ==> x !in b
    ensures Distinct(a) && Distinct(b)
  {
    if x in a && x in b {
      var i :| 0 <= i < |a| && a[i] == x;
      var j :| 0 <= j < |b| && b[j] == x;
      NotBoth(a, b, i, j);
    }
    forall i, j | 0 <= i < j < |b|
      ensures b[i] != b[j]
    {
      assert (a + b)[|a| + i] == b[i] && (a + b)[|a| + j] == b[j];
    }
    forall i, j | 0 <= i < j < |a|
      ensures a[i] != a[j]
    {
      assert (a + b)[i] == a[i] && (a + b)[j] == a[j];
    }
  }

  /** A node of the tree at a place is not one of the way up. */
  lemma NotOnPath(path: Path, t: Tree, x: nat)
    requires Distinct(Around(path, t)) && x in Ids(t)
    ensures x !in Before(path) && x !in After(path)
  {
    hide Distinct;
    Apart(Before(path) + Ids(t), After(path), x);
    Apart(Before(path), Ids(t), x);
  }

  lemma TreeDistinct(path: Path, t: Tree)
    requires Distinct(Around(path, t))
    ensures Distinct(Ids(t))
  {
    hide Distinct;
    Apart(Before(path) + Ids(t), After(path), 0);
    Apart(Before(path), Ids(t), 0);
  }

  lemma RootIn(t: Tree)
    ensures t.Node? ==> t.id in Ids(t)
  {
  }

  /** A node is not in its own subtrees, nor these in each other. */
  lemma NodeApart(l: bool, near: Tree, x: nat, red: bool, far: Tree)
    requires Distinct(Ids(Mk(l, near, x, red, far)))
    ensures x !in Ids(near) && x !in Ids(far) && Distinct(Ids(near)) && Distinct(Ids(far))
    ensures forall y :: y in Ids(near) ==> y !in Ids(far)
  {
    hide Distinct;
    var t := Mk(l, near, x, red, far);
    Apart(Ids(t.left) + [x], Ids(t.right), x);
    Apart(Ids(t.left), [x], x);
    assert x in [x];
    forall y | y in Ids(t.left)
      ensures y !in Ids(t.right)
    {
      Apart(Ids(t.left) + [x], Ids(t.right), y);
    }
  }

  /** A node gets another colour. */
  lemma Recolor(m: Mem, root: nat, path: Path, t: Tree, c: bool)
    requires At(m, root, path, t) && t.Node?
    ensures At(m[t.id := m[t.id].(red := c)], root, path, t.(red := c)) && Around(path, t.(red := c)) == Around(path, t)
  {
    hide Agree, Around, Distinct, PathIs;
    var x := t.id;
    var m' := m[x := m[x].(red := c)];
    TreeDistinct(path, t);
    NotOnPath(path, t, x);
    NodeApart(true, t.left, x, t.red, t.right);
    AgreeOff(m, m', Ids(t.left), {x});
    AgreeOff(m, m', Ids(t.right), {x});
    AgreeOff(m, m', Before(path), {x});
    AgreeOff(m, m', After(path), {x});
    IsSame(m, m', x, t.left);
    IsSame(m, m', x, t.right);
    PathKept(m, m', root, path, x);
    SameAround(path, t, t.(red := c));
  }

  lemma SameAround(path: Path, t: Tree, u: Tree)
    requires Ids(t) == Ids(u)
    ensures Around(path, t) == Around(path, u)
  {
  }

  /** `RB_ROTATE_LEFT` of node `x` if `l`, else `RB_ROTATE_RIGHT`: what it does to the nodes. */
  ghost predicate Rotated(m: Mem, root: nat, m': Mem, root': nat, path: Path, l: bool, x: nat, y: nat, b: nat) {
    var p := ParentOf(path);
    && x in m && y in m && x in m' && y in m'
    && m'[x] == m[x].SetKid(!l, b).(parent := y)
    && m'[y] == m[y].SetKid(l, x).(parent := p)
    && (b != 0 ==> b in m && b in m' && m'[b] == m[b].(parent := x))
    && HoleSet(m, root, m', root', path, y)
    && Changed(m, m', {x, y, b, p})
  }

  /** The pointer to a place becomes `y`. */
  ghost predicate HoleSet(m: Mem, root: nat, m': Mem, root': nat, path: Path, y: nat) {
    if path == [] then root' == y
    else root' == root && path[0].id in m && path[0].id in m' && m'[path[0].id] == m[path[0].id].SetKid(path[0].left, y)
  }

  lemma {:induction false} NoNull(m: Mem, p: nat, t: Tree)
    requires Is(m, p, t)
    ensures 0 !in Ids(t)
    decreases t
  {
    if t.Node? {
      NoNull(m, t.id, t.left);
      NoNull(m, t.id, t.right);
    }
  }

  lemma {:induction false} NoNullPath(m: Mem, root: nat, path: Path, x: nat)
    requires PathIs(m, root, path, x)
    ensures 0 !in Before(path) && 0 !in After(path)
    decreases |path|
  {
    if path != [] {
      NoNull(m, path[0].id, path[0].other);
      NoNullPath(m, root, path[1..], path[0].id);
    }
  }

  /** What is not on the way up is none of its parts. */
  lemma OffPath(path: Path, z: nat)
    requires path != [] && z !in Before(path) && z !in After(path)
    ensures z !in Ids(path[0].other) && z != path[0].id && z !in Before(path[1..]) && z !in After(path[1..])
  {
    var s := path[0];
    if s.left {
      assert z !in [s.id] + Ids(s.other);
      assert s.id in [s.id];
    } else {
      assert z !in Ids(s.other) + [s.id];
      assert s.id in [s.id];
    }
  }

  /** The parent is not on the rest of the way up, nor in its other child. */
  lemma ParentApart(path: Path, t: Tree)
    requires path != [] && Distinct(Around(path, t))
    ensures var p := path[0].id;
            p !in Ids(path[0].other) && p !in Before(path[1..]) && p !in After(path[1..]) && p !in Ids(t)
  {
    hide Distinct, Around;
    var s := path[0];
    AroundUp(path, t);
    var u := Up(s, t);
    TreeDistinct(path[1..], u);
    NodeApart(s.left, t, s.id, s.red, s.other);
    RootIn(u);
    NotOnPath(path[1..], u, s.id);
  }

  /** Where the memory still agrees, when the nodes of `ch` at a place and its parent change. */
  lemma PathOff(m: Mem, m': Mem, root: nat, path: Path, t: Tree, ch: set<nat>, x: nat)
    requires Changed(m, m', ch + {ParentOf(path)}) && PathIs(m, root, path, x) && Distinct(Around(path, t))
    requires forall z :: z in ch ==> z == 0 || z in Ids(t)
    ensures path != [] ==> Agree(m, m', Ids(path[0].other)) && PathAgree(m, m', path[1..])
  {
    hide Agree, Around, Distinct, PathIs;
    if path != [] {
      var rest, all := path[1..], ch + {ParentOf(path)};
      NoNullPath(m, root, path, x);
      ParentApart(path, t);
      forall z | z in all
        ensures z !in Ids(path[0].other) && z !in Before(rest) && z !in After(rest)
      {
        if z in ch {
          if z != 0 { NotOnPath(path, t, z); }
          OffPath(path, z);
        }
      }
      AgreeOff(m, m', Ids(path[0].other), all);
      AgreeOff(m, m', Before(rest), all);
      AgreeOff(m, m', After(rest), all);
    }
  }

  /** The parent of a place is not in the tree there. */
  lemma ParentOut(m: Mem, path: Path, t: Tree)
    requires Is(m, ParentOf(path), t) && Distinct(Around(path, t))
    ensures ParentOf(path) !in Ids(t)
  {
    NoNull(m, ParentOf(path), t);
    if path != [] { ParentApart(path, t); }
  }

  lemma NodeParts(m: Mem, p: nat, l: bool, near: Tree, x: nat, red: bool, far: Tree)
    ensures Is(m, p, Mk(l, near, x, red, far)) <==>
              x != 0 && x in m && m[x] == Link(0, 0, p, red).SetKid(l, Root(near)).SetKid(!l, Root(far))
              && Is(m, x, near) && Is(m, x, far)
  {
  }

  lemma RotateOk(m: Mem, root: nat, m': Mem, root': nat, path: Path, l: bool, a: Tree, x: nat, cx: bool, b: Tree,
          y: nat, cy: bool, c: Tree)
    requires At(m, root, path, Mk(l, a, x, cx, Mk(l, b, y, cy, c)))
            && Rotated(m, root, m', root', path, l, x, y, Root(b))
    ensures At(m', root', path, Mk(l, Mk(l, a, x, cx, b), y, cy, c))
    ensures Around(path, Mk(l, Mk(l, a, x, cx, b), y, cy, c)) == Around(path, Mk(l, a, x, cx, Mk(l, b, y, cy, c)))
  {
    hide Agree, Around, Distinct, PathIs, Changed, PathAgree, Is, Ids, Mk;
    var u, v := Mk(l, b, y, cy, c), Mk(l, a, x, cx, b);
    var t := Mk(l, a, x, cx, u);
    var p, ch := ParentOf(path), {x, y, Root(b)};
    NodeParts(m, p, l, a, x, cx, u);
    NodeParts(m, x, l, b, y, cy, c);
    TreeDistinct(path, t);
    NodeApart(l, a, x, cx, u);
    NodeApart(l, b, y, cy, c);
    NoNull(m, p, t);
    ParentOut(m, path, t);
    RotateIds(l, a, x, cx, b, y, cy, c);
    RootIn(b);
    MkIds(l, b, y, cy, c);
    MkIds(l, a, x, cx, u);
    assert ch + {p} == {x, y, Root(b), p};
    PathOff(m, m', root, path, t, ch, x);
    PathSame(m, m', root, root', path, x, y);
    AgreeOff(m, m', Ids(a), ch + {p});
    AgreeOff(m, m', Ids(c), ch + {p});
    IsSame(m, m', x, a);
    IsSame(m, m', y, c);
    Below(m, m', y, x, b, ch + {p});
    NodeParts(m', y, l, a, x, cx, b);
    NodeParts(m', p, l, v, y, cy, c);
    SameAround(path, t, Mk(l, v, y, cy, c));
  }

  /** A tree that hangs below another node, its root being one of the changed nodes. */
  lemma Below(m: Mem, m': Mem, p: nat, q: nat, b: Tree, ch: set<nat>)
    requires Is(m, p, b) && Distinct(Ids(b)) && Changed(m, m', ch)
    requires forall z :: z in ch && z != Root(b) ==> z !in Ids(b)
    requires b.Node? ==> b.id in m' && m'[b.id] == m[b.id].(parent := q)
    ensures Is(m', q, b)
  {
    hide Agree, Changed;
    if b.Node? {
      NodeApart(true, b.left, b.id, b.red, b.right);
      AgreeOff(m, m', Ids(b.left), ch);
      AgreeOff(m, m', Ids(b.right), ch);
      IsBelow(m, m', p, q, b);
    }
  }

  lemma MkIds(l: bool, near: Tree, x: nat, red: bool, far: Tree)
    ensures forall z :: z in Ids(Mk(l, near, x, red, far)) <==> z in Ids(near) || z == x || z in Ids(far)
  {
  }

  lemma RotateIds(l: bool, a: Tree, x: nat, cx: bool, b: Tree, y: nat, cy: bool, c: Tree)
    ensures Ids(Mk(l, Mk(l, a, x, cx, b), y, cy, c)) == Ids(Mk(l, a, x, cx, Mk(l, b, y, cy, c)))
  {
    var i, j, k := Ids(a), Ids(b), Ids(c);
    if l {
      Regroup(i, [x], j, [y] + k);
      assert (i + [x] + j) + [y] + k == i + [x] + (j + [y] + k);
    } else {
      assert k + [y] + (j + [x] + i) == (k + [y] + j) + [x] + i;
    }
  }

  // ----- Nodes that come and go

  lemma {:induction false} InMem(m: Mem, p: nat, t: Tree)
    requires Is(m, p, t)
    ensures forall z :: z in Ids(t) ==> z in m
    decreases t
  {
    if t.Node? {
      InMem(m, t.id, t.left);
      InMem(m, t.id, t.right);
    }
  }

  lemma {:induction false} PathInMem(m: Mem, root: nat, path: Path, x: nat)
    requires PathIs(m, root, path, x)
    ensures forall z :: z in Before(path) || z in After(path) ==> z in m
    decreases |path|
  {
    if path != [] {
      InMem(m, path[0].id, path[0].other);
      PathInMem(m, root, path[1..], path[0].id);
    }
  }

  lemma DistinctInsert(a: seq<nat>, x: nat, b: seq<nat>)
    requires Distinct(a + b) && x !in a && x !in b
    ensures Distinct(a + [x] + b)
  {
    var s := a + [x] + b;
    forall i, j | 0 <= i < j < |s|
      ensures s[i] != s[j]
    {
      var i', j' := if i < |a| then i else i - 1, if j < |a| then j else j - 1;
      if i != |a| && j != |a| {
        assert (a + b)[i'] == s[i] && (a + b)[j'] == s[j];
      } else if i == |a| {
        assert s[j] == b[j - |a| - 1];
      } else {
        assert s[i] == a[i];
      }
    }
  }

  lemma DistinctLess(a: seq<nat>, x: seq<nat>, b: seq<nat>, c: seq<nat>, d: seq<nat>)
    requires Distinct(a + (x + b + c) + d)
    ensures Distinct(a + b + d)
  {
    var s, t := a + (x + b + c) + d, a + b + d;
    forall i, j | 0 <= i < j < |t|
      ensures t[i] != t[j]
    {
      var i' := if i < |a| then i else if i < |a| + |b| then i + |x| else i + |x| + |c|;
      var j' := if j < |a| then j else if j < |a| + |b| then j + |x| else j + |x| + |c|;
      assert s[i'] == t[i] && s[j'] == t[j];
    }
  }

  /** A new red node where nothing was. */
  lemma InsertedOk(m: Mem, root: nat, m': Mem, root': nat, path: Path, x: nat)
    requires At(m, root, path, Leaf) && x != 0 && x !in m
    requires Changed(m, m', {x, ParentOf(path)}) && x in m' && m'[x] == Link(0, 0, ParentOf(path), true)
    requires HoleSet(m, root, m', root', path, x)
    ensures At(m', root', path, Node(Leaf, x, true, Leaf))
    ensures Around(path, Node(Leaf, x, true, Leaf)) == Before(path) + [x] + After(path)
    ensures Around(path, Leaf) == Before(path) + After(path)
  {
    hide Agree, PathIs, Changed, PathAgree, Distinct, Around;
    PathInMem(m, root, path, 0);
    InsertedIds(path, x);
    RenamedPath(m, m', root, root', path, Leaf, {x, ParentOf(path)}, 0, x);
    var t := Node(Leaf, x, true, Leaf);
    assert Is(m', ParentOf(path), t);
    assert PathIs(m', root', path, Root(t));
  }

  lemma InsertedIds(path: Path, x: nat)
    requires Distinct(Around(path, Leaf)) && x !in Before(path) && x !in After(path)
    ensures Around(path, Leaf) == Before(path) + After(path) && x !in Around(path, Leaf)
    ensures Around(path, Node(Leaf, x, true, Leaf)) == Before(path) + [x] + After(path)
    ensures Distinct(Around(path, Node(Leaf, x, true, Leaf)))
  {
    hide Distinct;
    assert Around(path, Leaf) == Before(path) + After(path);
    assert Ids(Node(Leaf, x, true, Leaf)) == [x];
    DistinctInsert(Before(path), x, After(path));
  }

  /** A node with at most one child goes, and the child comes to its place. */
  lemma ReplacedOk(m: Mem, root: nat, m': Mem, root': nat, path: Path, l: bool, x: nat, c: bool, child: Tree)
    requires At(m, root, path, Mk(l, Leaf, x, c, child))
    requires Changed(m, m', {Root(child), ParentOf(path)}) && HoleSet(m, root, m', root', path, Root(child))
    requires child.Node? ==> child.id in m && child.id in m' && m'[child.id] == m[child.id].(parent := ParentOf(path))
    ensures At(m', root', path, child)
    ensures Around(path, child) == Before(path) + Ids(child) + After(path)
    ensures Lost(Around(path, Mk(l, Leaf, x, c, child)), Around(path, child), x)
  {
    hide Agree, PathIs, Changed, PathAgree, Distinct;
    var t := Mk(l, Leaf, x, c, child);
    var p := ParentOf(path);
    NodeParts(m, p, l, Leaf, x, c, child);
    TreeDistinct(path, t);
    NodeApart(l, Leaf, x, c, child);
    NoNull(m, p, t);
    ParentOut(m, path, t);
    RootIn(child);
    MkIds(l, Leaf, x, c, child);
    assert {Root(child)} + {p} == {Root(child), p};
    PathOff(m, m', root, path, t, {Root(child)}, x);
    PathSame(m, m', root, root', path, x, Root(child));
    Below(m, m', x, p, child, {Root(child), p});
    ReplacedIds(path, l, x, c, child);
  }

  function Without(s: seq<nat>, i: nat): seq<nat>
    requires i < |s|
  {
    s[..i] + s[i + 1..]
  }

  /** One element less. */
  ghost predicate Lost(s: seq<nat>, s': seq<nat>, x: nat) {
    exists i :: 0 <= i < |s| && s[i] == x && s' == Without(s, i)
  }

  /** One element is another. */
  ghost predicate Swapped(s: seq<nat>, s': seq<nat>, x: nat, y: nat) {
    exists i :: 0 <= i < |s| && s[i] == x && s' == s[i := y]
  }

  lemma ReplacedIds(path: Path, l: bool, x: nat, c: bool, child: Tree)
    ensures var t := Mk(l, Leaf, x, c, child);
            && (Distinct(Around(path, t)) ==> Distinct(Around(path, child)))
            && Lost(Around(path, t), Around(path, child), x)
  {
    var t := Mk(l, Leaf, x, c, child);
    var a, b, d := Before(path), Ids(child), After(path);
    if l {
      assert Ids(t) == [x] + b;
      assert [x] + b + [] == [x] + b;
      if Distinct(Around(path, t)) { DistinctLess(a, [x], b, [], d); }
      assert Around(path, child) == Without(Around(path, t), |a|);
    } else {
      assert Ids(t) == b + [x];
      assert [] + b + [x] == b + [x];
      if Distinct(Around(path, t)) { DistinctLess(a, [], b, [x], d); }
      assert Around(path, child) == Without(Around(path, t), |a| + |b|);
    }
  }

  /** Another node takes the place of a node. */
  lemma RenamedOk(m: Mem, root: nat, m': Mem, root': nat, path: Path, l: Tree, x: nat, c: bool, r: Tree, y: nat)
    requires At(m, root, path, Node(l, x, c, r)) && y != 0 && y !in Around(path, Node(l, x, c, r))
    requires Changed(m, m', {x, y, Root(l), Root(r), ParentOf(path)}) && HoleSet(m, root, m', root', path, y)
    requires y in m' && m'[y] == m[x]
    requires l.Node? ==> l.id in m && l.id in m' && m'[l.id] == m[l.id].(parent := y)
    requires r.Node? ==> r.id in m && r.id in m' && m'[r.id] == m[r.id].(parent := y)
    ensures At(m', root', path, Node(l, y, c, r))
    ensures Swapped(Around(path, Node(l, x, c, r)), Around(path, Node(l, y, c, r)), x, y)
  {
    hide Agree, PathIs, Changed, PathAgree, Distinct;
    var t := Node(l, x, c, r);
    var p, ch := ParentOf(path), {x, y, Root(l), Root(r), ParentOf(path)};
    NodeParts(m, p, true, l, x, c, r);
    TreeDistinct(path, t);
    NodeApart(true, l, x, c, r);
    NoNull(m, p, t);
    ParentOut(m, path, t);
    RootIn(l);
    RootIn(r);
    MkIds(true, l, x, c, r);
    RenamedPath(m, m', root, root', path, t, ch, x, y);
    Below(m, m', x, y, l, ch);
    Below(m, m', x, y, r, ch);
    RenamedIds(path, l, x, c, r, y);
  }

  lemma RenamedPath(m: Mem, m': Mem, root: nat, root': nat, path: Path, t: Tree, ch: set<nat>, x: nat, y: nat)
    requires Changed(m, m', ch) && PathIs(m, root, path, x) && HoleSet(m, root, m', root', path, y)
            && Distinct(Around(path, t))
    requires forall z :: z in ch ==> z == 0 || z == y || z == ParentOf(path) || z in Ids(t)
    requires y !in Around(path, t)
    ensures PathIs(m', root', path, y)
  {
    hide Agree, PathIs, Distinct;
    if path != [] {
      NoNullPath(m, root, path, x);
      ParentApart(path, t);
      forall z | z in ch
        ensures z !in Ids(path[0].other) && z !in Before(path[1..]) && z !in After(path[1..])
      {
        if z != ParentOf(path) {
          if z != 0 && z != y { NotOnPath(path, t, z); }
          OffPath(path, z);
        }
      }
      AgreeOff(m, m', Ids(path[0].other), ch);
      AgreeOff(m, m', Before(path[1..]), ch);
      AgreeOff(m, m', After(path[1..]), ch);
    }
    PathSame(m, m', root, root', path, x, y);
  }

  lemma RenamedIds(path: Path, l: Tree, x: nat, c: bool, r: Tree, y: nat)
    requires Distinct(Around(path, Node(l, x, c, r))) && y !in Around(path, Node(l, x, c, r))
    ensures Distinct(Around(path, Node(l, y, c, r)))
    ensures Swapped(Around(path, Node(l, x, c, r)), Around(path, Node(l, y, c, r)), x, y)
  {
    var s, u := Around(path, Node(l, x, c, r)), Around(path, Node(l, y, c, r));
    var i := |Before(path)| + |Ids(l)|;
    assert s[i] == x && u == s[i := y];
    forall j, k | 0 <= j < k < |u|
      ensures u[j] != u[k]
    {
      assert s[j] in s && s[k] in s;
    }
  }
}

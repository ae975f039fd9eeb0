/** Colours and black heights, and what the fix-ups do to them. */
module RbBalance {
  import opened RbMemory

  predicate IsRed(t: Tree) {
    t.Node? && t.red
  }

  function Black(t: Tree): Tree {
    if t.Leaf? then Leaf else t.(red := false)
  }

  /** Every way down has `h` black nodes. */
  ghost predicate Bal(t: Tree, h: nat) {
    if t.Leaf? then h == 0
    else if t.red then Bal(t.left, h) && Bal(t.right, h)
    else h > 0 && Bal(t.left, h - 1) && Bal(t.right, h - 1)
  }

  /** No red node has a red child. */
  ghost predicate NoRedRed(t: Tree) {
    t.Node? ==> NoRedRed(t.left) && NoRedRed(t.right) && (t.red ==> !IsRed(t.left) && !IsRed(t.right))
  }

  /** A place is for a tree of black height `h`. */
  ghost predicate PathBal(path: Path, h: nat) {
    path != [] ==> Bal(path[0].other, h) && PathBal(path[1..], if path[0].red then h else h + 1)
  }

  /** No red node with a red child outside of the place; the root is black. */
  ghost predicate PathNoRedRed(path: Path) {
    path != [] ==>
      && NoRedRed(path[0].other) && PathNoRedRed(path[1..])
      && (path[0].red ==> !IsRed(path[0].other) && |path| > 1 && !path[1].red)
  }

  /** A place in a red-black tree. */
  ghost predicate Fine(path: Path, t: Tree, h: nat) {
    && Bal(t, h) && NoRedRed(t) && PathBal(path, h) && PathNoRedRed(path)
    && (IsRed(t) ==> path != [] && !path[0].red)
  }

  /** As that, but the tree at the place has a red root, perhaps below a red node. */
  ghost predicate High(path: Path, t: Tree, h: nat) {
    IsRed(t) && Bal(t, h) && NoRedRed(t) && PathBal(path, h) && PathNoRedRed(path)
  }

  /** As that, but the tree at the place lacks a black node, which its root, if red, could be. */
  ghost predicate Low(path: Path, t: Tree, h: nat) {
    Bal(t, h) && NoRedRed(Black(t)) && PathBal(path, h + 1) && PathNoRedRed(path)
  }

  /** A red-black tree. */
  ghost predicate RedBlack(t: Tree, h: nat) {
    Bal(t, h) && NoRedRed(t) && !IsRed(t)
  }

  lemma MkIs(l: bool, near: Tree, x: nat, red: bool, far: Tree, h: nat)
    ensures var t := Mk(l, near, x, red, far);
            && (Bal(t, h) <==>
                  if red then Bal(near, h) && Bal(far, h) else h > 0 && Bal(near, h - 1) && Bal(far, h - 1))
            && (NoRedRed(t) <==> NoRedRed(near) && NoRedRed(far) && (red ==> !IsRed(near) && !IsRed(far)))
            && IsRed(t) == red && Black(t) == Mk(l, near, x, false, far)
  {
  }

  lemma PathIsStep(s: Step, path: Path, h: nat)
    ensures PathBal([s] + path, h) <==> Bal(s.other, h) && PathBal(path, if s.red then h else h + 1)
    ensures PathNoRedRed([s] + path) <==> NoRedRed(s.other) && PathNoRedRed(path)
                                          && (s.red ==> !IsRed(s.other) && path != [] && !path[0].red)
  {
    assert ([s] + path)[1..] == path;
    assert path != [] ==> ([s] + path)[1] == path[0];
  }

  lemma BlackIs(t: Tree, h: nat)
    requires Bal(t, h)
    ensures Bal(Black(t), if IsRed(t) then h + 1 else h) && !IsRed(Black(t)) && (!IsRed(t) ==> Black(t) == t)
    ensures NoRedRed(t) ==> NoRedRed(Black(t))
  {
  }

  lemma FineWhole(t: Tree, h: nat)
    ensures RedBlack(t, h) <==> Fine([], t, h)
  {
  }

  lemma FineDown(path: Path, l: bool, near: Tree, x: nat, red: bool, far: Tree, h: nat) returns (h': nat)
    requires Fine(path, Mk(l, near, x, red, far), h)
    ensures Fine([Step(l, x, red, far)] + path, near, h') && Fine([Step(!l, x, red, near)] + path, far, h')
  {
    hide Bal, NoRedRed, PathBal, PathNoRedRed, Mk;
    MkIs(l, near, x, red, far, h);
    h' := if red then h else h - 1;
    PathIsStep(Step(l, x, red, far), path, h');
    PathIsStep(Step(!l, x, red, near), path, h');
  }

  lemma FineUp(path: Path, t: Tree, h: nat) returns (h': nat)
    requires path != [] && Fine(path, t, h)
    ensures Fine(path[1..], Up(path[0], t), h')
  {
    hide Bal, NoRedRed, PathBal, PathNoRedRed, Mk;
    var s := path[0];
    assert path == [s] + path[1..];
    PathIsStep(s, path[1..], h);
    h' := if s.red then h else h + 1;
    MkIs(s.left, t, s.id, s.red, s.other, h');
  }

  lemma {:induction false} FineRoot(path: Path, t: Tree, h: nat) returns (h': nat)
    requires Fine(path, t, h)
    ensures RedBlack(Plug(path, t), h')
    decreases |path|
  {
    h' := h;
    if path != [] {
      h' := FineUp(path, t, h);
      h' := FineRoot(path[1..], Up(path[0], t), h');
    }
  }

  // ----- After an insertion

  lemma HighStart(path: Path, x: nat, h: nat)
    requires Fine(path, Leaf, h)
    ensures High(path, Node(Leaf, x, true, Leaf), h)
  {
  }

  /** A red parent has a black parent. */
  lemma HighGrand(path: Path, t: Tree, h: nat)
    requires High(path, t, h) && path != [] && path[0].red
    ensures |path| > 1 && !path[1].red
  {
  }

  /** A red uncle: he and the parent turn black, the grandparent red. */
  lemma HighUncle(path: Path, p: Step, g: Step, t: Tree, h: nat)
    requires High([p] + ([g] + path), t, h) && p.red && IsRed(g.other)
    ensures High(path, Up(g.(red := true, other := Black(g.other)), Up(p.(red := false), t)), h + 1)
  {
    hide Bal, NoRedRed, PathBal, PathNoRedRed, Mk, Black;
    PathIsStep(p, [g] + path, h);
    PathIsStep(g, path, h);
    BlackIs(g.other, h);
    var u := Up(p.(red := false), t);
    MkIs(p.left, t, p.id, false, p.other, h + 1);
    MkIs(g.left, u, g.id, true, Black(g.other), h + 1);
  }

  /** An inner child: rotated to be an outer one. */
  lemma HighInner(path: Path, l: bool, a: Tree, p: nat, b: Tree, e: nat, c: Tree, h: nat)
    requires High([Step(!l, p, true, a)] + path, Mk(l, b, e, true, c), h)
    ensures High([Step(l, e, true, c)] + path, Mk(l, a, p, true, b), h)
  {
    hide Bal, NoRedRed, PathBal, PathNoRedRed, Mk;
    PathIsStep(Step(!l, p, true, a), path, h);
    PathIsStep(Step(l, e, true, c), path, h);
    MkIs(l, b, e, true, c, h);
    MkIs(l, a, p, true, b, h);
  }

  /** An outer child: the parent turns black and comes to the grandparent's place. */
  lemma HighOuter(path: Path, l: bool, e: Tree, p: nat, c: Tree, g: nat, u: Tree, h: nat)
    requires High([Step(l, p, true, c)] + ([Step(l, g, false, u)] + path), e, h) && !IsRed(u)
    ensures High([Step(l, p, false, Mk(!l, u, g, true, c))] + path, e, h)
  {
    hide Bal, NoRedRed, PathBal, PathNoRedRed, Mk;
    PathIsStep(Step(l, p, true, c), [Step(l, g, false, u)] + path, h);
    PathIsStep(Step(l, g, false, u), path, h);
    PathIsStep(Step(l, p, false, Mk(!l, u, g, true, c)), path, h);
    MkIs(!l, u, g, true, c, h);
  }

  lemma HighEnd(path: Path, t: Tree, h: nat)
    requires High(path, t, h)
    ensures path == [] ==> Fine(path, Black(t), h + 1)
    ensures path != [] && !path[0].red ==> Fine(path, t, h)
  {
    BlackIs(t, h);
  }

  // ----- After a removal

  /** A place that lacks a black node has a sibling. */
  lemma LowSibling(path: Path, t: Tree, h: nat)
    requires Low(path, t, h) && path != []
    ensures path[0].other.Node? && (IsRed(path[0].other) ==> !path[0].red)
  {
  }

  /** A red sibling: rotated up. */
  lemma LowRed(path: Path, l: bool, t: Tree, p: nat, wn: Tree, w: nat, wf: Tree, h: nat)
    requires Low([Step(l, p, false, Mk(l, wn, w, true, wf))] + path, t, h)
    ensures Low([Step(l, p, true, wn)] + ([Step(l, w, false, wf)] + path), t, h) && !IsRed(wn)
  {
    hide Bal, NoRedRed, PathBal, PathNoRedRed, Mk, Black;
    PathIsStep(Step(l, p, false, Mk(l, wn, w, true, wf)), path, h + 1);
    MkIs(l, wn, w, true, wf, h + 1);
    PathIsStep(Step(l, w, false, wf), path, h + 1);
    PathIsStep(Step(l, p, true, wn), [Step(l, w, false, wf)] + path, h + 1);
  }

  /** A black sibling with black children turns red, and the place moves up. */
  lemma LowBlack(path: Path, l: bool, t: Tree, p: nat, c: bool, wn: Tree, w: nat, wf: Tree, h: nat) returns (h': nat)
    requires Low([Step(l, p, c, Mk(l, wn, w, false, wf))] + path, t, h) && !IsRed(t) && !IsRed(wn) && !IsRed(wf)
    ensures Low(path, Mk(l, t, p, c, Mk(l, wn, w, true, wf)), h')
  {
    hide Bal, NoRedRed, PathBal, PathNoRedRed, Mk, Black;
    PathIsStep(Step(l, p, c, Mk(l, wn, w, false, wf)), path, h + 1);
    h' := if c then h else h + 1;
    BlackIs(t, h);
    MkIs(l, wn, w, false, wf, h + 1);
    MkIs(l, wn, w, true, wf, h);
    MkIs(l, t, p, c, Mk(l, wn, w, true, wf), h');
    MkIs(l, t, p, false, Mk(l, wn, w, true, wf), h');
  }

  /** A black sibling whose far child is black: its red near child is rotated up. */
  lemma LowNear(path: Path, l: bool, t: Tree, p: nat, c: bool, a: Tree, n: nat, b: Tree, w: nat, wf: Tree, h: nat)
    requires Low([Step(l, p, c, Mk(l, Mk(l, a, n, true, b), w, false, wf))] + path, t, h) && !IsRed(wf)
    ensures Low([Step(l, p, c, Mk(l, a, n, false, Mk(l, b, w, true, wf)))] + path, t, h)
  {
    hide Bal, NoRedRed, PathBal, PathNoRedRed, Mk, Black;
    PathIsStep(Step(l, p, c, Mk(l, Mk(l, a, n, true, b), w, false, wf)), path, h + 1);
    PathIsStep(Step(l, p, c, Mk(l, a, n, false, Mk(l, b, w, true, wf))), path, h + 1);
    MkIs(l, Mk(l, a, n, true, b), w, false, wf, h + 1);
    MkIs(l, a, n, true, b, h);
    MkIs(l, b, w, true, wf, h);
    MkIs(l, a, n, false, Mk(l, b, w, true, wf), h + 1);
  }

  /** A black sibling with a red far child: rotated up, and nothing lacks. */
  lemma LowFar(path: Path, l: bool, t: Tree, p: nat, c: bool, a: Tree, w: nat, f: Tree, h: nat) returns (h': nat)
    requires Low([Step(l, p, c, Mk(l, a, w, false, f))] + path, t, h) && !IsRed(t) && IsRed(f)
    ensures Fine(path, Mk(l, Mk(l, t, p, false, a), w, c, Black(f)), h')
  {
    hide Bal, NoRedRed, PathBal, PathNoRedRed, Mk, Black;
    PathIsStep(Step(l, p, c, Mk(l, a, w, false, f)), path, h + 1);
    h' := if c then h + 1 else h + 2;
    BlackIs(t, h);
    MkIs(l, a, w, false, f, h + 1);
    BlackIs(f, h);
    MkIs(l, t, p, false, a, h + 1);
    MkIs(l, Mk(l, t, p, false, a), w, c, Black(f), h');
  }

  lemma LowEnd(path: Path, t: Tree, h: nat) returns (h': nat)
    requires Low(path, t, h) && (IsRed(t) || path == [])
    ensures Fine(path, Black(t), h')
  {
    BlackIs(t, h);
    h' := if IsRed(t) then h + 1 else h;
  }

  // ----- Height

  function Depth(t: Tree): nat {
    if t.Leaf? then 0 else 1 + if Depth(t.left) > Depth(t.right) then Depth(t.left) else Depth(t.right)
  }

  function Pow2(n: nat): nat {
    if n == 0 then 1 else 2 * Pow2(n - 1)
  }

  lemma {:induction false} DepthBound(t: Tree, h: nat)
    requires Bal(t, h) && NoRedRed(t)
    ensures Depth(t) <= 2 * h + if IsRed(t) then 1 else 0
    ensures Pow2(h) <= |Ids(t)| + 1
    decreases t
  {
    if t.Node? {
      var h' := if t.red then h else h - 1;
      DepthBound(t.left, h');
      DepthBound(t.right, h');
    }
  }

  lemma {:induction false} Pow2Grows(a: nat, b: nat)
    requires a <= b
    ensures Pow2(a) <= Pow2(b)
  {
    if a < b { Pow2Grows(a, b - 1); }
  }

  /** The height is at most twice the logarithm of the number of nodes and one. */
  lemma HeightBound(t: Tree, h: nat)
    requires RedBlack(t, h)
    ensures Pow2((Depth(t) + 1) / 2) <= |Ids(t)| + 1
  {
    DepthBound(t, h);
    Pow2Grows((Depth(t) + 1) / 2, h);
  }
}

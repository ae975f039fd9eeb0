/** The red-black tree of `misc/tree.h`, in which the cache and the journal keep their buffers.
    `RB_GENERATE_INSERT_COLOR` and `RB_GENERATE_REMOVE_COLOR` write each fix-up twice, for the
    left and the right side; here the side is a variable. */
module RbTree {
  import opened RbMemory
  import opened RbBalance

  function Near(t: Tree, l: bool): Tree
    requires t.Node?
  {
    if l then t.left else t.right
  }

  lemma MkFlip(l: bool, a: Tree, x: nat, c: bool, b: Tree)
    ensures Mk(l, a, x, c, b) == Mk(!l, b, x, c, a)
  {
  }

  lemma MkOf(t: Tree, l: bool)
    requires t.Node?
    ensures t == Mk(l, Near(t, l), t.id, t.red, Near(t, !l))
  {
  }

  /** What the memory says at a place. */
  lemma Cells(m: Mem, root: nat, path: Path, t: Tree)
    requires At(m, root, path, t)
    ensures t.Node? ==> t.id != 0 && t.id in m && m[t.id] == Link(Root(t.left), Root(t.right), ParentOf(path), t.red)
    ensures path == [] ==> root == Root(t)
    ensures path != [] ==>
              var s, p := path[0], path[0].id;
              && p != 0 && p in m && m[p].red == s.red && m[p].parent == ParentOf(path[1..])
              && m[p].Kid(s.left) == Root(t) && m[p].Kid(!s.left) == Root(s.other)
              && (s.other.Node? ==>
                    && s.other.id != 0 && s.other.id in m
                    && m[s.other.id] == Link(Root(s.other.left), Root(s.other.right), p, s.other.red))
  {
  }

  /** The side of a place shows in its parent. */
  lemma Side(m: Mem, root: nat, path: Path, t: Tree)
    requires At(m, root, path, t) && path != [] && (t.Node? || path[0].other.Node?)
    ensures path[0].id in m && (m[path[0].id].left == Root(t) <==> path[0].left) && Root(t) != Root(path[0].other)
  {
    hide Distinct, Around, PathIs;
    var s := path[0];
    Cells(m, root, path, t);
    StepUp(m, root, path, t);
    TreeDistinct(path[1..], Up(s, t));
    NodeApart(s.left, t, s.id, s.red, s.other);
    RootIn(t);
    RootIn(s.other);
  }

  class RbTree {
    var nodes: Mem
    var root: nat

    /** What the elements are compared by. */
    var keys: map<nat, int>

    ghost var tree: Tree
    ghost var height: nat

    /** The elements in order. */
    ghost function Elements(): seq<nat>
      reads this`tree
    {
      Ids(tree)
    }

    ghost predicate Valid()
      reads this
    {
      && At(nodes, root, [], tree) && RedBlack(tree, height)
      && Sorted(Elements(), keys) && forall x :: x in nodes <==> x in Elements()
    }

    /** `RB_INITIALIZER`. */
    constructor ()
      ensures Valid() && Elements() == []
    {
      nodes, root, keys, tree, height := map[], 0, map[], Leaf, 0;
    }

    /** In the rotations and in removal: the pointer from the parent `p` to `x`, or that to the
        root, becomes `y`. */
    method SetHole(p: nat, x: nat, y: nat, ghost path: Path, ghost m0: Mem, ghost r0: nat, ghost t: Tree)
      requires At(m0, r0, path, t) && t.Node? && x == t.id && p == ParentOf(path) && root == r0
      requires p != 0 ==> p in nodes && nodes[p] == m0[p]
      modifies this`nodes, this`root
      ensures HoleSet(m0, r0, nodes, root, path, y)
      ensures p == 0 ==> nodes == old(nodes)
      ensures p != 0 ==> nodes == old(nodes)[p := nodes[p]]
    {
      hide At;
      Cells(m0, r0, path, t);
      if p != 0 {
        Side(m0, r0, path, t);
        if x == nodes[p].left {
          nodes := nodes[p := nodes[p].(left := y)];
        } else {
          nodes := nodes[p := nodes[p].(right := y)];
        }
      } else {
        root := y;
      }
    }

    /** `RB_ROTATE_LEFT` of node `x` if `l`, else `RB_ROTATE_RIGHT`. */
    method Rotate(x: nat, l: bool, ghost path: Path, ghost a: Tree, ghost cx: bool, ghost b: Tree, ghost y: nat,
            ghost cy: bool, ghost c: Tree)
      requires At(nodes, root, path, Mk(l, a, x, cx, Mk(l, b, y, cy, c)))
      modifies this`nodes, this`root
      ensures At(nodes, root, path, Mk(l, Mk(l, a, x, cx, b), y, cy, c)) && nodes.Keys == old(nodes.Keys)
      ensures Around(path, Mk(l, Mk(l, a, x, cx, b), y, cy, c)) == Around(path, Mk(l, a, x, cx, Mk(l, b, y, cy, c)))
    {
      hide At, Mk, Rotated, Around;
      ghost var m, r, t := nodes, root, Mk(l, a, x, cx, Mk(l, b, y, cy, c));
      RotateCells(m, r, path, l, a, x, cx, b, y, cy, c);
      var tmp := nodes[x].Kid(!l);
      var kid := nodes[tmp].Kid(l);
      nodes := nodes[x := nodes[x].SetKid(!l, kid)];
      if kid != 0 { nodes := nodes[kid := nodes[kid].(parent := x)]; }
      var p := nodes[x].parent;
      nodes := nodes[tmp := nodes[tmp].(parent := p)];
      SetHole(p, x, tmp, path, m, r, t);
      nodes := nodes[tmp := nodes[tmp].SetKid(l, x)];
      nodes := nodes[x := nodes[x].(parent := tmp)];
      assert Rotated(m, r, nodes, root, path, l, x, y, Root(b)) by { IsRotated(m, r, nodes, root, path, l, x, y,
          Root(b)); }
      RotateOk(m, r, nodes, root, path, l, a, x, cx, b, y, cy, c);
    }

    /** The end of a round of `RB_INSERT_COLOR` in which the uncle is black: an inner grandchild
        is first rotated outwards. */
    method InsertRotate(x: nat, p: nat, gparent: nat, d: bool, ghost rest: Path, ghost sp0: Step, ghost sg: Step,
            ghost t0: Tree, ghost h: nat)
      returns (elm: nat, ghost path: Path, ghost t: Tree)
      requires At(nodes, root, [sp0] + ([sg] + rest), t0) && High([sp0] + ([sg] + rest), t0, h)
      requires x == t0.id && p == sp0.id && sp0.red && gparent == sg.id && d == sg.left && !sg.red && !IsRed(sg.other)
      modifies this`nodes, this`root
      ensures At(nodes, root, path, t) && High(path, t, h) && elm == t.id && |path| == |rest| + 1 && !path[0].red
      ensures Around(path, t) == Around([sp0] + ([sg] + rest), t0) && nodes.Keys == old(nodes.Keys)
    {
      hide At, High, Around, Mk, Fine;
      ghost var path0 := [sp0] + ([sg] + rest);
      HighIs(path0, t0, h);
      var parent := p;
      elm := x;
      t := t0;
      ghost var sp := sp0;
      KidSide(nodes, root, [sg] + rest, sp, t, d);
      if nodes[parent].Kid(!d) == elm {
        ghost var a, b, e, c := sp.other, Near(t, d), t.id, Near(t, !d);
        InnerIs(nodes, root, [sg] + rest, d, a, sp.id, t);
        MkOf(t, d);
        Rotate(parent, d, [sg] + rest, a, true, b, e, true, c);
        HighInner([sg] + rest, d, a, sp.id, b, e, c, h);
        var tmp := parent;
        parent := elm;
        elm := tmp;
        DownNear(nodes, root, [sg] + rest, d, Mk(d, a, sp.id, true, b), e, true, c);
        t := Mk(d, a, sp.id, true, b);
        sp := Step(d, e, true, c);
      }
      assert sp == Step(d, parent, true, sp.other) && sg == Step(d, gparent, false, sg.other);
      OuterColors(nodes, root, rest, d, t, parent, sp.other, gparent, sg.other);
      nodes := nodes[parent := nodes[parent].(red := false)][gparent := nodes[gparent].(red := true)];
      Rotate(gparent, !d, rest, sg.other, true, sp.other, parent, false, t);
      HighOuter(rest, d, t, parent, sp.other, gparent, sg.other, h);
      OuterDone(nodes, root, rest, d, t, parent, sp.other, gparent, sg.other);
      path := [Step(d, parent, false, Mk(!d, sg.other, gparent, true, sp.other))] + rest;
    }

    /** `RB_INSERT_COLOR`. */
    method InsertColor(x: nat, ghost path0: Path, ghost t0: Tree, ghost h0: nat) returns (ghost t: Tree, ghost h: nat)
      requires At(nodes, root, path0, t0) && High(path0, t0, h0) && x == t0.id
      modifies this`nodes, this`root
      ensures At(nodes, root, [], t) && RedBlack(t, h) && Ids(t) == Around(path0, t0) && nodes.Keys == old(nodes.Keys)
    {
      hide At, High, Around, Mk, Fine;
      var elm := x;
      ghost var path := path0;
      t, h := t0, h0;
      HighIs(path, t, h);
      Cells(nodes, root, path, t);
      while nodes[elm].parent != 0 && nodes[nodes[elm].parent].red
        invariant At(nodes, root, path, t) && High(path, t, h) && t.Node? && elm == t.id && t.red
        invariant Around(path, t) == Around(path0, t0) && nodes.Keys == old(nodes.Keys)
        invariant elm in nodes && nodes[elm].parent == ParentOf(path) && (path != [] ==>
                  ParentOf(path) in nodes && ParentOf(path) != 0)
        invariant path != [] ==> nodes[ParentOf(path)].red == path[0].red
        decreases |path|
      {
        HighGrand(path, t, h);
        ghost var sp, sg, rest := path[0], path[1], path[2..];
        assert path == [sp] + ([sg] + rest) && path[1..] == [sg] + rest;
        ghost var pt := Up(sp, t);
        GrandCells(nodes, root, rest, sp, sg, t);
        var parent := nodes[elm].parent;
        var gparent := nodes[parent].parent;
        var d := nodes[gparent].left == parent;
        var tmp := nodes[gparent].Kid(!d);
        if tmp != 0 && nodes[tmp].red {
          UncleOk(nodes, root, rest, sp, sg, t);
          HighUncle(rest, sp, sg, t, h);
          nodes := nodes[tmp := nodes[tmp].(red := false)];
          nodes := nodes[parent := nodes[parent].(red := false)][gparent := nodes[gparent].(red := true)];
          elm := gparent;
          t := Up(sg.(red := true, other := Black(sg.other)), Up(sp.(red := false), t));
          path, h := rest, h + 1;
          HighIs(path, t, h);
          Cells(nodes, root, path, t);
          continue;
        }
        elm, path, t := InsertRotate(elm, parent, gparent, d, rest, sp, sg, t, h);
        HighIs(path, t, h);
        Cells(nodes, root, path, t);
      }
      ghost var t1 := t;
      t, h := HighWhole(nodes, root, path, t1, h);
      nodes := nodes[root := nodes[root].(red := false)];
    }

    /** A round of `RB_REMOVE_COLOR` begins: a red sibling is rotated up, and its child is the
        new one. */
    method RedSibling(parent: nat, d: bool, ghost path0: Path, ghost t: Tree, ghost h: nat) returns (tmp: nat,
            ghost sp: Step, ghost rest: Path)
      requires At(nodes, root, path0, t) && Low(path0, t, h) && !IsRed(t)
      requires path0 != [] && path0[0].left == d && parent == path0[0].id
      modifies this`nodes, this`root
      ensures At(nodes, root, [sp] + rest, t) && Low([sp] + rest, t, h) && sp.left == d && sp.id == parent
      ensures Around([sp] + rest, t) == Around(path0, t) && nodes.Keys == old(nodes.Keys)
      ensures sp.other.Node? && !sp.other.red && tmp == sp.other.id
      ensures |rest| + 1 == |path0| || (sp.red && |rest| == |path0|)
    {
      hide At, Low, Around, Mk;
      sp, rest := path0[0], path0[1..];
      assert path0 == [sp] + rest;
      LowSibling(path0, t, h);
      Cells(nodes, root, path0, t);
      tmp := nodes[parent].Kid(!d);
      if nodes[tmp].red {
        ghost var w := sp.other;
        ghost var wn, wf := Near(w, d), Near(w, !d);
        MkOf(w, d);
        RedSiblingColors(nodes, root, rest, d, t, parent, wn, tmp, wf);
        nodes := nodes[tmp := nodes[tmp].(red := false)][parent := nodes[parent].(red := true)];
        Rotate(parent, d, rest, t, true, wn, tmp, false, wf);
        LowRed(rest, d, t, parent, wn, tmp, wf, h);
        DownNear(nodes, root, rest, d, Mk(d, t, parent, true, wn), tmp, false, wf);
        rest := [Step(d, tmp, false, wf)] + rest;
        DownNear(nodes, root, rest, d, t, parent, true, wn);
        sp := Step(d, parent, true, wn);
        Cells(nodes, root, [sp] + rest, t);
        LowSibling([sp] + rest, t, h);
        tmp := nodes[parent].Kid(!d);
      }
    }

    /** In a round that ends, a red near child of the sibling is rotated outwards. */
    method NearRotate(parent: nat, tmp0: nat, d: bool, ghost sp0: Step, ghost rest: Path, ghost t: Tree,
            ghost h: nat) returns (tmp: nat, ghost sp: Step)
      requires At(nodes, root, [sp0] + rest, t) && Low([sp0] + rest, t, h)
      requires sp0.left == d && sp0.id == parent && sp0.other.Node? && !sp0.other.red && tmp0 == sp0.other.id
      requires !IsRed(Near(sp0.other, !d)) && IsRed(Near(sp0.other, d))
      modifies this`nodes, this`root
      ensures At(nodes, root, [sp] + rest, t) && Low([sp] + rest, t, h) && sp.left == d && sp.id == parent
      ensures sp.other.Node? && !sp.other.red && tmp == sp.other.id && IsRed(Near(sp.other, !d))
      ensures Around([sp] + rest, t) == Around([sp0] + rest, t) && nodes.Keys == old(nodes.Keys)
    {
      hide At, Low, Around, Mk, Fine;
      ghost var c, w, f := sp0.red, sp0.other.id, Near(sp0.other, !d);
      ghost var nn := Near(sp0.other, d);
      ghost var a, n, b := Near(nn, d), nn.id, Near(nn, !d);
      MkOf(sp0.other, d);
      MkOf(nn, d);
      NearColors(nodes, root, rest, d, t, parent, c, a, n, b, w, f);
      var oleft := nodes[tmp0].Kid(d);
      if oleft != 0 { nodes := nodes[oleft := nodes[oleft].(red := false)]; }
      nodes := nodes[tmp0 := nodes[tmp0].(red := true)];
      Rotate(tmp0, !d, [Step(!d, parent, c, t)] + rest, f, true, b, n, false, a);
      LowNear(rest, d, t, parent, c, a, n, b, w, f, h);
      NearDone(nodes, root, rest, d, t, parent, c, a, n, b, w, f);
      sp := Step(d, parent, c, Mk(d, a, n, false, Mk(d, b, w, true, f)));
      MkNear(d, a, n, false, Mk(d, b, w, true, f));
      Cells(nodes, root, [sp] + rest, t);
      tmp := nodes[parent].Kid(!d);
    }

    /** A round of it ends: the sibling has a red child, which is first rotated outwards if it is
        the near one. */
    method RemoveRotate(parent: nat, w: nat, d: bool, ghost sp0: Step, ghost rest: Path, ghost t: Tree,
            ghost h: nat) returns (ghost u: Tree, ghost h': nat)
      requires At(nodes, root, [sp0] + rest, t) && Low([sp0] + rest, t, h) && !IsRed(t)
      requires sp0.left == d && sp0.id == parent && sp0.other.Node? && !sp0.other.red && w == sp0.other.id
      requires IsRed(sp0.other.left) || IsRed(sp0.other.right)
      modifies this`nodes, this`root
      ensures At(nodes, root, rest, u) && Fine(rest, u, h') && u.Node?
      ensures Around(rest, u) == Around([sp0] + rest, t) && nodes.Keys == old(nodes.Keys)
    {
      hide At, Low, Around, Mk, Fine;
      ghost var sp := sp0;
      var tmp := w;
      SiblingKids(nodes, root, sp, rest, t, d);
      var far := nodes[tmp].Kid(!d);
      if far == 0 || !nodes[far].red {
        tmp, sp := NearRotate(parent, tmp, d, sp, rest, t, h);
      }
      ghost var a, f := Near(sp.other, d), Near(sp.other, !d);
      MkOf(sp.other, d);
      FarColors(nodes, root, rest, d, t, parent, sp.red, a, tmp, f);
      nodes := nodes[tmp := nodes[tmp].(red := nodes[parent].red)];
      nodes := nodes[parent := nodes[parent].(red := false)];
      if nodes[tmp].Kid(!d) != 0 {
        var o := nodes[tmp].Kid(!d);
        nodes := nodes[o := nodes[o].(red := false)];
      }
      Rotate(parent, d, rest, t, false, a, tmp, sp.red, Black(f));
      h' := LowFar(rest, d, t, parent, sp.red, a, tmp, f, h);
      u := Mk(d, Mk(d, t, parent, false, a), tmp, sp.red, Black(f));
    }

    /** One round of the loop of `RB_REMOVE_COLOR`, the last one if `fin`. */
    method RemoveRound(parent0: nat, elm0: nat, ghost path0: Path, ghost t0: Tree, ghost h0: nat)
      returns (fin: bool, parent: nat, elm: nat, ghost path: Path, ghost t: Tree, ghost h: nat)
      requires At(nodes, root, path0, t0) && Low(path0, t0, h0) && !IsRed(t0)
      requires path0 != [] && parent0 == path0[0].id && elm0 == Root(t0)
      modifies this`nodes, this`root
      ensures At(nodes, root, path, t) && Around(path, t) == Around(path0, t0) && nodes.Keys == old(nodes.Keys)
              && t.Node?
      ensures fin ==> Fine(path, t, h) && elm == root
      ensures !fin ==> Low(path, t, h) && parent == ParentOf(path) && elm == t.id
      ensures !fin ==> |path| < |path0| || (|path| == |path0| && IsRed(t))
    {
      hide At, Low, Around, Mk, Fine;
      Side2(nodes, root, path0, t0, h0);
      var d := nodes[parent0].left == elm0;
      ghost var sp, rest;
      var tmp;
      tmp, sp, rest := RedSibling(parent0, d, path0, t0, h0);
      SiblingKids(nodes, root, sp, rest, t0, d);
      var l, r := nodes[tmp].left, nodes[tmp].right;
      path := rest;
      if (l == 0 || !nodes[l].red) && (r == 0 || !nodes[r].red) {
        ghost var w := sp.other;
        MkOf(w, d);
        SiblingColor(nodes, root, rest, d, t0, parent0, sp.red, w, true);
        nodes := nodes[tmp := nodes[tmp].(red := true)];
        MkColor(d, Near(w, d), tmp, false, Near(w, !d), true);
        h := LowBlack(rest, d, t0, parent0, sp.red, Near(w, d), tmp, Near(w, !d), h0);
        t := Mk(d, t0, parent0, sp.red, w.(red := true));
        Cells(nodes, root, path, t);
        elm := parent0;
        parent := nodes[elm].parent;
        fin := false;
      } else {
        t, h := RemoveRotate(parent0, tmp, d, sp, rest, t0, h0);
        elm := root;
        parent := parent0;
        fin := true;
      }
    }

    /** `RB_REMOVE_COLOR`. */
    method RemoveColor(p0: nat, x0: nat, ghost path0: Path, ghost t0: Tree, ghost h0: nat) returns (ghost t: Tree,
            ghost h: nat)
      requires At(nodes, root, path0, t0) && Low(path0, t0, h0) && p0 == ParentOf(path0) && x0 == Root(t0)
      modifies this`nodes, this`root
      ensures At(nodes, root, [], t) && RedBlack(t, h) && Ids(t) == Around(path0, t0) && nodes.Keys == old(nodes.Keys)
    {
      hide At, Low, Around, Mk, Fine;
      var parent, elm, fin := p0, x0, false;
      ghost var path := path0;
      t, h := t0, h0;
      RootAt(nodes, root, path, t);
      while (elm == 0 || !nodes[elm].red) && elm != root
        invariant At(nodes, root, path, t) && Around(path, t) == Around(path0, t0) && nodes.Keys == old(nodes.Keys)
        invariant Low(path, t, h) && parent == ParentOf(path) && elm == Root(t) && (elm == root <==> path == [])
        invariant if elm == 0 then t.Leaf? else t.Node? && elm in nodes && nodes[elm].red == t.red
        decreases |path|, if IsRed(t) then 0 else 1
      {
        fin, parent, elm, path, t, h := RemoveRound(parent, elm, path, t, h);
        if fin {
          t, h := FineBlack(nodes, root, path, t, h);
          nodes := nodes[elm := nodes[elm].(red := false)];
          return;
        }
        RootAt(nodes, root, path, t);
      }
      if elm != 0 {
        t, h := LowBlacken(nodes, root, path, t, h);
        nodes := nodes[elm := nodes[elm].(red := false)];
      } else {
        EmptyTree(nodes, root, path, t, h);
        h := 0;
      }
    }

    /** The way down of `RB_INSERT` and `RB_FIND`: to the element with a key, or to its place. */
    method Search(key: int) returns (found: nat, parent: nat, less: bool, ghost path: Path, ghost t: Tree, ghost h: nat)
      requires Valid()
      ensures At(nodes, root, path, t) && Fine(path, t, h) && Around(path, t) == Elements() && Between(path, keys, key)
      ensures if found == 0 then t.Leaf? else t.Node? && found == t.id && found in keys && keys[found] == key
      ensures found == 0 ==> parent == ParentOf(path) && (path != [] ==> less == path[0].left)
    {
      hide At, Fine, Sorted, RedBlack, Around;
      path, t, h := [], tree, height;
      FineWhole(tree, height);
      AroundTop(tree, keys, key);
      Cells(nodes, root, path, t);
      var tmp := root;
      parent, less := 0, false;
      while tmp != 0
        invariant At(nodes, root, path, t) && Fine(path, t, h) && tmp == Root(t) && (tmp == 0 ==> t.Leaf?)
                && parent == ParentOf(path)
        invariant Around(path, t) == Elements() && Between(path, keys, key) && (path != [] ==> less == path[0].left)
        decreases t
      {
        Cells(nodes, root, path, t);
        InAround(path, t, keys);
        parent := tmp;
        var comp := key - keys[parent];
        if comp == 0 { return tmp, parent, less, path, t, h; }
        less := comp < 0;
        MkOf(t, less);
        h := FineDown(path, less, Near(t, less), t.id, t.red, Near(t, !less), h);
        DownNear(nodes, root, path, less, Near(t, less), t.id, t.red, Near(t, !less));
        if less {
          tmp := nodes[tmp].left;
          DownLess(path, t, keys, key);
          path, t := [Step(true, t.id, t.red, t.right)] + path, t.left;
        } else {
          tmp := nodes[tmp].right;
          DownMore(path, t, keys, key);
          path, t := [Step(false, t.id, t.red, t.left)] + path, t.right;
        }
        Cells(nodes, root, path, t);
      }
      found := 0;
    }

    /** `RB_FIND`. */
    method Find(key: int) returns (found: nat)
      requires Valid()
      ensures found != 0 ==> found in Elements() && keys[found] == key
      ensures found == 0 ==> forall x :: x in Elements() ==> keys[x] != key
    {
      hide At, Fine, RedBlack;
      var parent, less;
      ghost var path, t, h;
      found, parent, less, path, t, h := Search(key);
      if found != 0 { InAround(path, t, keys); } else { OutAround(path, t, keys, key); }
    }

    /** `RB_INSERT`: an element with the same key is returned, if there is one; else the new element
        comes to its place in the order. */
    method Insert(elm: nat, key: int) returns (found: nat)
      requires Valid() && elm != 0 && elm !in nodes
      modifies this
      ensures Valid()
      ensures found != 0 ==> found in Elements() && keys[found] == key
      ensures found != 0 ==>
                nodes == old(nodes) && root == old(root) && keys == old(keys) && Elements() == old(Elements())
      ensures found == 0 ==> keys == old(keys)[elm := key] && Added(old(Elements()), Elements(), elm)
      ensures found == 0 ==> forall x :: x in old(Elements()) ==> old(keys)[x] != key
    {
      hide At, Fine, High, Sorted, RedBlack, Around, Added;
      var parent, less;
      ghost var path, t, h;
      found, parent, less, path, t, h := Search(key);
      if found != 0 {
        InAround(path, t, keys);
        return;
      }
      OutAround(path, t, keys, key);
      Attach(elm, parent, less, path, t);
      HighStart(path, elm, h);
      ghost var u, h';
      u, h' := InsertColor(elm, path, Node(Leaf, elm, true, Leaf), h);
      tree, height := u, h';
      InsertedSorted(path, elm, keys, key);
      keys := keys[elm := key];
    }

    /** `RB_SET` and the pointer from the parent. */
    method Attach(elm: nat, parent: nat, less: bool, ghost path: Path, ghost t: Tree)
      requires At(nodes, root, path, t) && t.Leaf? && elm != 0 && elm !in nodes
      requires parent == ParentOf(path) && (path != [] ==> less == path[0].left)
      modifies this`nodes, this`root
      ensures At(nodes, root, path, Node(Leaf, elm, true, Leaf)) && nodes.Keys == old(nodes.Keys) + {elm}
      ensures Around(path, Node(Leaf, elm, true, Leaf)) == Before(path) + [elm] + After(path)
    {
      hide At, Around;
      ghost var m, r := nodes, root;
      Cells(m, r, path, t);
      nodes := nodes[elm := Link(0, 0, parent, true)];
      if parent != 0 {
        if less {
          nodes := nodes[parent := nodes[parent].(left := elm)];
        } else {
          nodes := nodes[parent := nodes[parent].(right := elm)];
        }
      } else {
        root := elm;
      }
      InsertedOk(m, r, nodes, root, path, elm);
    }

    /** In `RB_REMOVE`: a node with at most one child goes, and the child comes to its place. */
    method Detach(elm: nat, child: nat, ghost path: Path, ghost l: bool, ghost c: bool,
            ghost ct: Tree) returns (parent: nat)
      requires At(nodes, root, path, Mk(l, Leaf, elm, c, ct)) && child == Root(ct)
      modifies this`nodes, this`root
      ensures At(nodes, root, path, ct) && parent == ParentOf(path) && nodes.Keys == old(nodes.Keys)
      ensures Lost(Around(path, Mk(l, Leaf, elm, c, ct)), Around(path, ct), elm)
    {
      hide At, Mk, Around;
      ghost var m, r, t := nodes, root, Mk(l, Leaf, elm, c, ct);
      DetachCells(m, r, path, l, elm, c, ct);
      parent := nodes[elm].parent;
      if child != 0 { nodes := nodes[child := nodes[child].(parent := parent)]; }
      SetHole(parent, elm, child, path, m, r, t);
      ReplacedOk(m, r, nodes, root, path, l, elm, c, ct);
    }

    /** In `RB_REMOVE`: node `elm` takes over the links of node `old`. */
    method TakeOver(elm: nat, was: nat, ghost path: Path, ghost l: Tree, ghost c: bool, ghost r: Tree)
      requires At(nodes, root, path, Node(l, was, c, r)) && l.Node? && elm != 0 && elm in nodes
              && elm !in Around(path, Node(l, was, c, r))
      modifies this`nodes, this`root
      ensures At(nodes, root, path, Node(l, elm, c, r)) && nodes.Keys == old(nodes.Keys)
      ensures Swapped(Around(path, Node(l, was, c, r)), Around(path, Node(l, elm, c, r)), was, elm)
    {
      hide At, Around;
      ghost var m, rt, t := nodes, root, Node(l, was, c, r);
      TakeCells(m, rt, path, l, was, c, r, elm);
      nodes := nodes[elm := nodes[was]];
      SetHole(nodes[was].parent, was, elm, path, m, rt, t);
      var left, right := nodes[was].left, nodes[was].right;
      nodes := nodes[left := nodes[left].(parent := elm)];
      if right != 0 { nodes := nodes[right := nodes[right].(parent := elm)]; }
      RenamedOk(m, rt, nodes, root, path, l, was, c, r, elm);
    }

    /** The leftmost node below the right child of a node. */
    method Leftmost(start: nat, ghost path: Path, ghost t: Tree, ghost h: nat) returns (elm: nat, ghost q: Path,
            ghost tt: Tree, ghost hh: nat)
      requires At(nodes, root, path, t) && Fine(path, t, h) && t.Node? && t.right.Node? && start == t.right.id
      ensures var base := [Step(false, t.id, t.red, t.left)] + path;
              && At(nodes, root, q + base, tt) && Fine(q + base, tt, hh) && Around(q + base, tt) == Around(path, t)
      ensures tt.Node? && elm == tt.id && tt.left.Leaf? && Before(q) == [] && Plug(q, tt) == t.right
    {
      hide At, Fine, Around, Mk;
      ghost var base := [Step(false, t.id, t.red, t.left)] + path;
      elm, q, tt := start, [], t.right;
      MkOf(t, false);
      hh := FineDown(path, false, t.right, t.id, t.red, t.left, h);
      DownNear(nodes, root, path, false, t.right, t.id, t.red, t.left);
      assert [] + base == base;
      Cells(nodes, root, q + base, tt);
      NotNull(nodes, root, q + base, tt);
      while nodes[elm].left != 0
        invariant At(nodes, root, q + base, tt) && Fine(q + base, tt, hh) && Around(q + base, tt) == Around(path, t)
        invariant tt.Node? && elm == tt.id && elm in nodes && nodes[elm].left == Root(tt.left) && Before(q) == []
                && Plug(q, tt) == t.right
        invariant nodes[elm].left == 0 ==> tt.left.Leaf?
        decreases tt
      {
        hh := LeftStep(nodes, root, q, base, tt, hh);
        elm := nodes[elm].left;
        q, tt := [Step(true, tt.id, tt.red, tt.right)] + q, tt.left;
        Cells(nodes, root, q + base, tt);
        NotNull(nodes, root, q + base, tt);
      }
    }

    /** The successor of a node with two children takes its place, as `RB_REMOVE` does it. */
    method RemoveTwo(x: nat, ghost path: Path, ghost t: Tree, ghost h: nat)
      returns (child: nat, parent: nat, red: bool, ghost fp: Path, ghost ct: Tree, ghost hc: nat)
      requires At(nodes, root, path, t) && Fine(path, t, h) && t.Node? && x == t.id && t.left.Node? && t.right.Node?
      modifies this`nodes, this`root
      ensures At(nodes, root, fp, ct) && child == Root(ct) && parent == ParentOf(fp) && nodes.Keys == old(nodes.Keys)
      ensures if red then Fine(fp, ct, hc) else Low(fp, ct, hc)
      ensures Lost(Around(path, t), Around(fp, ct), x)
    {
      hide At, Fine, Low, Around, Mk, Lost, Plug;
      ghost var l, c := t.left, t.red;
      ghost var sx := Step(false, x, c, l);
      ghost var base := [sx] + path;
      Cells(nodes, root, path, t);
      AtDistinct(nodes, root, path, t);
      var elm;
      ghost var q, tt, hh;
      elm, q, tt, hh := Leftmost(nodes[x].right, path, t, h);
      FirstRight(path, t, q, tt);
      Cells(nodes, root, q + base, tt);
      ParentBase(nodes, root, q, sx, path, tt);
      child := nodes[elm].right;
      red := nodes[elm].red;
      var atOld := nodes[elm].parent == x;
      ct := tt.right;
      MkOf(tt, true);
      parent := Detach(elm, child, q + base, true, tt.red, ct);
      if atOld { parent := elm; }
      Ups(nodes, root, q, base, ct);
      ghost var r1 := Plug(q, ct);
      UpOne(nodes, root, sx, path, r1);
      GoneNow(Around(path, t), Around(q + base, ct), elm);
      MkNode(l, x, c, r1);
      TakeOver(elm, x, path, l, c, r1);
      ghost var base' := [Step(false, elm, c, l)] + path;
      MkNode(l, elm, c, r1);
      DownFar(nodes, root, path, true, l, elm, c, r1);
      Ups(nodes, root, q, base', ct);
      fp := q + base';
      hc := FineLess(q + base, true, elm, tt.red, ct, hh);
      OtherId(q, sx, elm, path, ct, hc);
      SwapLost(Around(path, t), Around(q + base, ct), Around(fp, ct), x, elm);
    }

    /** `RB_REMOVE`. */
    method Remove(x: nat)
      requires Valid() && x in nodes
      modifies this
      ensures Valid() && Lost(old(Elements()), Elements(), x) && nodes.Keys == old(nodes.Keys) - {x}
              && keys == old(keys)
    {
      hide At, Fine, Low, Around, Mk, Lost, RedBlack, Sorted;
      FineWhole(tree, height);
      AroundTop(tree, keys, 0);
      ghost var path, t, h := Locate(nodes, root, [], tree, height, x);
      Cells(nodes, root, path, t);
      NotNull(nodes, root, path, t);
      AtDistinct(nodes, root, path, t);
      var left, right := nodes[x].left, nodes[x].right;
      var child, parent, red;
      ghost var fp, ct, hc;
      if left == 0 || right == 0 {
        child := if left == 0 then right else left;
        red := nodes[x].red;
        ghost var l := left == 0;
        MkOf(t, l);
        fp, ct := path, Near(t, !l);
        parent := Detach(x, child, path, l, t.red, ct);
        hc := FineLess(path, l, x, t.red, ct, h);
      } else {
        child, parent, red, fp, ct, hc := RemoveTwo(x, path, t, h);
      }
      RemoveEnd(x, child, parent, red, fp, ct, hc);
    }

    /** The end of it: the fix-up, if a black node lacks. */
    method RemoveEnd(x: nat, child: nat, parent: nat, red: bool, ghost fp: Path, ghost ct: Tree, ghost hc: nat)
      requires At(nodes, root, fp, ct) && child == Root(ct) && parent == ParentOf(fp) && x in nodes
      requires if red then Fine(fp, ct, hc) else Low(fp, ct, hc)
      requires Distinct(Elements()) && Sorted(Elements(), keys) && (forall y :: y in nodes <==> y in Elements())
      requires Lost(Elements(), Around(fp, ct), x)
      modifies this
      ensures Valid() && Lost(old(Elements()), Elements(), x) && nodes.Keys == old(nodes.Keys) - {x}
              && keys == old(keys)
    {
      hide At, Fine, Low, Around, Lost, RedBlack, Sorted, Distinct;
      ghost var s, u, h := Elements(), ct, hc;
      if !red {
        u, h := RemoveColor(parent, child, fp, ct, hc);
      } else {
        u, h := FineTop(nodes, root, fp, ct, hc);
      }
      GoneNow(s, Ids(u), x);
      LostSorted(s, Ids(u), x, keys);
      tree, height := u, h;
      Dropped(nodes, root, u, x);
      nodes := nodes - {x};
    }

    /** `RB_NEXT`: the least element of the right subtree, or else the first node on the way up
        that is entered from the left. */
    method Next(x: nat) returns (r: nat)
      requires Valid() && x in nodes
      ensures if r == 0 then Last(Elements(), x) else Follows(Elements(), x, r)
    {
      hide At, Fine, Around, Mk, RedBlack, Sorted, Follows, Last;
      FineWhole(tree, height);
      AroundTop(tree, keys, 0);
      ghost var path, t, h := Locate(nodes, root, [], tree, height, x);
      Cells(nodes, root, path, t);
      NotNull(nodes, root, path, t);
      if nodes[x].right != 0 {
        ghost var q, tt, hh;
        r, q, tt, hh := Leftmost(nodes[x].right, path, t, h);
        FirstRight(path, t, q, tt);
        Cells(nodes, root, q + ([Step(false, t.id, t.red, t.left)] + path), tt);
        return;
      }
      r := Climb(x, path, t);
      AtParts0(nodes, root, path, t);
      AfterNode(path, t);
    }

    /** The second part of it. */
    method Climb(x: nat, ghost path: Path, ghost t: Tree) returns (r: nat)
      requires At(nodes, root, path, t) && t.Node? && x == t.id
      ensures r == First(After(path))
    {
      hide At, Around, Mk, Up;
      r := x;
      ghost var p, u := path, t;
      Cells(nodes, root, p, u);
      if p != [] { Side(nodes, root, p, u); }
      if nodes[r].parent != 0 && r == nodes[nodes[r].parent].left { return nodes[r].parent; }
      while nodes[r].parent != 0 && r == nodes[nodes[r].parent].right
        invariant At(nodes, root, p, u) && u.Node? && r == u.id && r in nodes && nodes[r].parent == ParentOf(p)
        invariant p != [] ==> ParentOf(p) != 0 && ParentOf(p) in nodes && (r == nodes[ParentOf(p)].right <==>
                !p[0].left)
        invariant After(p) == After(path)
        decreases |p|
      {
        r := nodes[r].parent;
        StepUp(nodes, root, p, u);
        UpNode(p[0], u);
        u, p := Up(p[0], u), p[1..];
        Cells(nodes, root, p, u);
        if p != [] { Side(nodes, root, p, u); }
      }
      r := nodes[r].parent;
    }

    /** `RB_MIN`, or `RB_MAX`. */
    method MinMax(max: bool) returns (parent: nat)
      requires Valid()
      ensures if Elements() == [] then parent == 0 else parent == Elements()[if max then |Elements()| - 1 else 0]
    {
      hide At, Fine, Around, Mk, RedBlack, Sorted;
      AroundTop(tree, keys, 0);
      ghost var path: Path, t := [], tree;
      Cells(nodes, root, path, t);
      var tmp := root;
      parent := 0;
      while tmp != 0
        invariant At(nodes, root, path, t) && tmp == Root(t) && (tmp == 0 ==> t.Leaf?) && parent == ParentOf(path)
        invariant Around(path, t) == Elements() && (if max then After(path) else Before(path)) == []
        invariant path != [] ==> path[0].left == !max
        decreases t
      {
        parent := tmp;
        Cells(nodes, root, path, t);
        MkOf(t, !max);
        DownNear(nodes, root, path, !max, Near(t, !max), t.id, t.red, Near(t, max));
        tmp := nodes[tmp].Kid(!max);
        path, t := [Step(!max, t.id, t.red, Near(t, max))] + path, Near(t, !max);
        Cells(nodes, root, path, t);
      }
      EndMost(path, t);
    }

    /** `RB_NFIND`: the least element with the key or a higher one. */
    method NFind(key: int) returns (res: nat)
      requires Valid()
      ensures res == 0 ==> forall x :: x in Elements() ==> keys[x] < key
      ensures res != 0 ==>
                && res in Elements() && keys[res] >= key
                && forall x :: x in Elements() && keys[x] >= key ==> keys[x] >= keys[res]
    {
      hide At, Fine, Around, Mk, RedBlack, Sorted;
      AroundTop(tree, keys, key);
      ghost var path: Path, t := [], tree;
      Cells(nodes, root, path, t);
      var tmp := root;
      res := 0;
      while tmp != 0
        invariant At(nodes, root, path, t) && tmp == Root(t) && (tmp == 0 ==> t.Leaf?)
        invariant Around(path, t) == Elements() && Between(path, keys, key) && res == First(After(path))
        decreases t
      {
        Cells(nodes, root, path, t);
        InAround(path, t, keys);
        var comp := key - keys[tmp];
        if comp == 0 { return tmp; }
        ghost var less := comp < 0;
        MkOf(t, less);
        DownNear(nodes, root, path, less, Near(t, less), t.id, t.red, Near(t, !less));
        if comp < 0 {
          res := tmp;
          tmp := nodes[tmp].left;
          DownLess(path, t, keys, key);
          path, t := [Step(true, t.id, t.red, t.right)] + path, t.left;
        } else {
          tmp := nodes[tmp].right;
          DownMore(path, t, keys, key);
          path, t := [Step(false, t.id, t.red, t.left)] + path, t.right;
        }
        Cells(nodes, root, path, t);
      }
      FirstAfter(path, t, nodes, root, keys, key);
    }

    /** `RB_FOREACH`: all elements, in order. */
    method ForEach() returns (s: seq<nat>)
      requires Valid()
      ensures s == Elements()
    {
      hide At, RedBlack, Sorted;
      var x := MinMax(false);
      s := [];
      NonNull();
      while x != 0
        invariant |s| <= |Elements()| && s == Elements()[..|s|]
                && x == if |s| < |Elements()| then Elements()[|s|] else 0
        decreases |Elements()| - |s|
      {
        s := s + [x];
        var y := Next(x);
        NextIs(Elements(), |s| - 1, x, y);
        x := y;
      }
    }

    lemma NonNull()
      requires Valid()
      ensures Distinct(Elements()) && 0 !in Elements()
    {
      NoNull(nodes, 0, tree);
      AroundTop(tree, keys, 0);
    }
  }

  ghost predicate Last(s: seq<nat>, x: nat) {
    |s| > 0 && s[|s| - 1] == x
  }

  function First(s: seq<nat>): nat {
    if s == [] then 0 else s[0]
  }

  lemma AfterNode(path: Path, t: Tree)
    requires t.Node? && t.right.Leaf?
    ensures if After(path) == [] then Last(Around(path, t), t.id) else Follows(Around(path, t), t.id, After(path)[0])
  {
    var s, k := Around(path, t), |Before(path)| + |Ids(t.left)|;
    assert Ids(t.right) == [] && Ids(t) == Ids(t.left) + [t.id];
    assert s[k] == t.id;
    if After(path) != [] { assert s[k + 1] == After(path)[0]; }
  }

  lemma UpNode(s: Step, t: Tree)
    ensures Up(s, t).Node? && Up(s, t).id == s.id
  {
  }

  lemma EndMost(path: Path, t: Tree)
    requires t.Leaf?
    ensures Before(path) == [] && (path != [] ==> path[0].left) ==>
              if path == [] then Around(path, t) == [] else Around(path, t) != [] && Around(path, t)[0] == path[0].id
    ensures After(path) == [] && (path != [] ==> !path[0].left) ==>
              if path == [] then Around(path, t) == []
              else Around(path, t) != [] && Around(path, t)[|Around(path, t)| - 1] == path[0].id
  {
  }

  lemma FirstAfter(path: Path, t: Tree, m: Mem, root: nat, keys: map<nat, int>, key: int)
    requires At(m, root, path, t) && t.Leaf? && Between(path, keys, key) && Sorted(Around(path, t), keys)
    ensures var res := First(After(path));
            && (res == 0 ==> forall x :: x in Around(path, t) ==> keys[x] < key)
            && (res != 0 ==> res in Around(path, t) && keys[res] >= key
                             && forall x :: x in Around(path, t) && keys[x] >= key ==> keys[x] >= keys[res])
  {
    hide At, Sorted, Around;
    AtParts0(m, root, path, t);
    OutAround(path, t, keys, key);
    LeastOf(Before(path), After(path), keys);
  }

  /** The first of the later elements has the lowest key of them. */
  lemma LeastOf(a: seq<nat>, b: seq<nat>, keys: map<nat, int>)
    requires Sorted(a + b, keys)
    ensures b != [] ==> b[0] in a + b && b[0] in keys && forall x :: x in b ==> x in keys && keys[x] >= keys[b[0]]
  {
    if b != [] {
      var s := a + b;
      assert s[|a|] == b[0];
      forall x | x in b
        ensures x in keys && keys[x] >= keys[b[0]]
      {
        var i :| 0 <= i < |b| && b[i] == x;
        assert s[|a| + i] == x;
      }
    }
  }

  lemma AtParts0(m: Mem, root: nat, path: Path, t: Tree)
    requires At(m, root, path, t)
    ensures 0 !in After(path)
  {
    NoNullPath(m, root, path, Root(t));
  }

  lemma NextIs(s: seq<nat>, k: nat, x: nat, y: nat)
    requires Distinct(s) && k < |s| && s[k] == x && 0 !in s
    requires if y == 0 then Last(s, x) else Follows(s, x, y)
    ensures y == if k + 1 < |s| then s[k + 1] else 0
  {
    if y != 0 {
      var j :| 0 <= j < |s| - 1 && s[j] == x && s[j + 1] == y;
      assert j == k;
    }
  }

  lemma DetachCells(m: Mem, root: nat, path: Path, l: bool, x: nat, c: bool, ct: Tree)
    requires At(m, root, path, Mk(l, Leaf, x, c, ct))
    ensures x in m && x != 0 && m[x].parent == ParentOf(path) && x != ParentOf(path)
    ensures ct.Node? ==> ct.id in m && ct.id != 0 && ct.id != ParentOf(path) && ct.id != x && m[ct.id].parent == x
    ensures path != [] ==> path[0].id in m && path[0].id != 0
  {
    hide At, Mk, Around;
    var t := Mk(l, Leaf, x, c, ct);
    Cells(m, root, path, t);
    DownFar(m, root, path, l, Leaf, x, c, ct);
    Cells(m, root, [Step(!l, x, c, Leaf)] + path, ct);
    AtParts(m, root, path, t);
    NodeApart(l, Leaf, x, c, ct);
    MkIds(l, Leaf, x, c, ct);
    RootIn(ct);
  }

  lemma AtParts(m: Mem, root: nat, path: Path, t: Tree)
    requires At(m, root, path, t)
    ensures Distinct(Ids(t)) && ParentOf(path) !in Ids(t)
  {
    hide Distinct, Around, PathIs;
    TreeDistinct(path, t);
    ParentOut(m, path, t);
  }

  lemma TakeCells(m: Mem, root: nat, path: Path, l: Tree, x: nat, c: bool, r: Tree, y: nat)
    requires At(m, root, path, Node(l, x, c, r)) && y !in Around(path, Node(l, x, c, r))
    ensures x in m && x != 0 && m[x] == Link(Root(l), Root(r), ParentOf(path), c) && x != ParentOf(path) && x != y
    ensures l.Node? ==> l.id in m && l.id != 0 && l.id != ParentOf(path) && l.id != x && l.id != y
    ensures r.Node? ==> r.id in m && r.id != 0 && r.id != ParentOf(path) && r.id != x && r.id != y
    ensures l.Node? && r.Node? ==> l.id != r.id
    ensures path != [] ==> path[0].id in m && path[0].id != 0 && path[0].id != y
  {
    hide At;
    var t := Node(l, x, c, r);
    Cells(m, root, path, t);
    DownNear(m, root, path, true, l, x, c, r);
    DownFar(m, root, path, true, l, x, c, r);
    Cells(m, root, [Step(true, x, c, r)] + path, l);
    Cells(m, root, [Step(false, x, c, l)] + path, r);
    AtParts(m, root, path, t);
    NodeApart(true, l, x, c, r);
    RootIn(l);
    RootIn(r);
    if path != [] {
      if y !in Before(path) && y !in After(path) { OffPath(path, y); }
    }
  }

  /** The keys are there, and increase. */
  ghost predicate Sorted(ids: seq<nat>, keys: map<nat, int>) {
    && (forall i :: 0 <= i < |ids| ==> ids[i] in keys)
    && forall i, j :: 0 <= i < j < |ids| ==> keys[ids[i]] < keys[ids[j]]
  }

  /** One element more, somewhere. */
  ghost predicate Added(s: seq<nat>, s': seq<nat>, x: nat) {
    exists i :: 0 <= i <= |s| && s' == s[..i] + [x] + s[i..]
  }

  /** All before a place have lower keys, all after it higher ones. */
  ghost predicate Between(path: Path, keys: map<nat, int>, key: int) {
    && (forall x :: x in Before(path) ==> x in keys && keys[x] < key)
    && (forall x :: x in After(path) ==> x in keys && keys[x] > key)
  }

  lemma AroundTop(t: Tree, keys: map<nat, int>, key: int)
    ensures Around([], t) == Ids(t) && Between([], keys, key)
  {
  }

  /** The node at a place is one of all, and its subtrees lie on either side of it. */
  lemma InAround(path: Path, t: Tree, keys: map<nat, int>)
    requires Sorted(Around(path, t), keys) && t.Node?
    ensures t.id in Around(path, t) && t.id in keys
    ensures forall x :: x in Ids(t.left) ==> x in keys && keys[x] < keys[t.id]
    ensures forall x :: x in Ids(t.right) ==> x in keys && keys[x] > keys[t.id]
  {
    var s := Around(path, t);
    var lo, n := |Before(path)|, |Ids(t.left)|;
    assert s[lo + n] == t.id;
    forall x | x in Ids(t.left)
      ensures x in keys && keys[x] < keys[t.id]
    {
      var i :| 0 <= i < n && Ids(t.left)[i] == x;
      assert s[lo + i] == x;
    }
    forall x | x in Ids(t.right)
      ensures x in keys && keys[x] > keys[t.id]
    {
      var i :| 0 <= i < |Ids(t.right)| && Ids(t.right)[i] == x;
      assert s[lo + n + 1 + i] == x;
    }
  }

  lemma OutAround(path: Path, t: Tree, keys: map<nat, int>, key: int)
    requires t.Leaf? && Between(path, keys, key)
    ensures Around(path, t) == Before(path) + After(path)
    ensures forall x :: x in Around(path, t) ==> x in keys && keys[x] != key
  {
  }

  lemma DownLess(path: Path, t: Tree, keys: map<nat, int>, key: int)
    requires Between(path, keys, key) && Sorted(Around(path, t), keys) && t.Node? && t.id in keys && key < keys[t.id]
    ensures Between([Step(true, t.id, t.red, t.right)] + path, keys, key)
  {
    InAround(path, t, keys);
    var q := [Step(true, t.id, t.red, t.right)] + path;
    assert q[1..] == path;
  }

  lemma DownMore(path: Path, t: Tree, keys: map<nat, int>, key: int)
    requires Between(path, keys, key) && Sorted(Around(path, t), keys) && t.Node? && t.id in keys && key > keys[t.id]
    ensures Between([Step(false, t.id, t.red, t.left)] + path, keys, key)
  {
    InAround(path, t, keys);
    var q := [Step(false, t.id, t.red, t.left)] + path;
    assert q[1..] == path;
  }

  lemma InsertedSorted(path: Path, x: nat, keys: map<nat, int>, key: int)
    requires Between(path, keys, key) && Sorted(Before(path) + After(path), keys) && x !in Before(path)
            && x !in After(path)
    ensures Sorted(Before(path) + [x] + After(path), keys[x := key])
    ensures Added(Before(path) + After(path), Before(path) + [x] + After(path), x)
    ensures forall y :: y in Before(path) + After(path) ==> y in keys && keys[y] != key
  {
    var a, b := Before(path), After(path);
    var s, u := a + b, a + [x] + b;
    var keys' := keys[x := key];
    assert u == s[..|a|] + [x] + s[|a|..];
    forall i | 0 <= i < |u|
      ensures u[i] in keys'
      ensures i < |a| ==> u[i] == s[i] && keys'[u[i]] == keys[s[i]] < key
      ensures i > |a| ==> u[i] == s[i - 1] && keys'[u[i]] == keys[s[i - 1]] > key
    {
      if i < |a| { assert u[i] in a; }
      if i > |a| { assert u[i] in b; }
    }
  }

  /** The nodes that a rotation is about. */
  lemma RotateCells(m: Mem, root: nat, path: Path, l: bool, a: Tree, x: nat, cx: bool, b: Tree, y: nat, cy: bool,
          c: Tree)
    requires At(m, root, path, Mk(l, a, x, cx, Mk(l, b, y, cy, c)))
    ensures x in m && m[x].Kid(!l) == y && m[x].parent == ParentOf(path) && x != 0
    ensures y in m && m[y].Kid(l) == Root(b) && m[y].parent == x && y != 0
    ensures b.Node? ==> b.id != 0 && b.id in m
    ensures x != y && x != Root(b) && y != Root(b)
    ensures ParentOf(path) != x && ParentOf(path) != y && (b.Node? ==> ParentOf(path) != b.id)
    ensures ParentOf(path) != 0 ==> ParentOf(path) in m
  {
    hide Distinct, Around, PathIs;
    var u := Mk(l, b, y, cy, c);
    var t := Mk(l, a, x, cx, u);
    var p := ParentOf(path);
    Cells(m, root, path, t);
    TreeDistinct(path, t);
    NodeApart(l, a, x, cx, u);
    NodeApart(l, b, y, cy, c);
    NodeParts(m, p, l, a, x, cx, u);
    NodeParts(m, x, l, b, y, cy, c);
    ParentOut(m, path, t);
    MkIds(l, a, x, cx, u);
    MkIds(l, b, y, cy, c);
    RootIn(b);
  }

  lemma IsRotated(m: Mem, root: nat, m': Mem, root': nat, path: Path, l: bool, x: nat, y: nat, b: nat)
    requires x in m && y in m && x in m' && y in m'
    requires m'[x] == m[x].SetKid(!l, b).(parent := y) && m'[y] == m[y].SetKid(l, x).(parent := ParentOf(path))
    requires b != 0 ==> b in m && b in m' && m'[b] == m[b].(parent := x)
    requires HoleSet(m, root, m', root', path, y) && Changed(m, m', {x, y, b, ParentOf(path)})
    ensures Rotated(m, root, m', root', path, l, x, y, b)
  {
  }

  lemma HighIs(path: Path, t: Tree, h: nat)
    requires High(path, t, h)
    ensures t.Node? && t.red
  {
  }

  /** The nodes around a red node below a red parent. */
  lemma GrandCells(m: Mem, root: nat, rest: Path, sp: Step, sg: Step, t: Tree)
    requires At(m, root, [sp] + ([sg] + rest), t) && t.Node?
    ensures t.id in m && m[t.id].parent == sp.id && sp.id in m && sp.id != 0 && m[sp.id].parent == sg.id
            && sg.id in m && sg.id != 0
    ensures (m[sg.id].left == sp.id) == sg.left && m[sg.id].Kid(!sg.left) == Root(sg.other)
    ensures sg.other.Node? ==> sg.other.id in m && sg.other.id != 0 && m[sg.other.id].red == sg.other.red
  {
    hide At;
    var p1 := [sg] + rest;
    var p2 := [sp] + p1;
    assert p2[1..] == p1;
    StepUp(m, root, p2, t);
    Cells(m, root, p2, t);
    Cells(m, root, p1, Up(sp, t));
    Side(m, root, p1, Up(sp, t));
  }

  /** Whether a node is an inner grandchild. */
  lemma KidSide(m: Mem, root: nat, path: Path, sp: Step, t: Tree, d: bool)
    requires At(m, root, [sp] + path, t) && t.Node?
    ensures sp.id in m && (m[sp.id].Kid(!d) == t.id <==> sp.left == !d)
  {
    hide At;
    var p := [sp] + path;
    Side(m, root, p, t);
    Cells(m, root, p, t);
  }

  lemma InnerIs(m: Mem, root: nat, path: Path, d: bool, a: Tree, p: nat, t: Tree)
    requires At(m, root, [Step(!d, p, true, a)] + path, t) && t.Node?
    ensures var u := Mk(d, a, p, true, Mk(d, Near(t, d), t.id, t.red, Near(t, !d)));
            At(m, root, path, u) && Around(path, u) == Around([Step(!d, p, true, a)] + path, t)
  {
    hide At, Around;
    var q := [Step(!d, p, true, a)] + path;
    assert q[1..] == path;
    StepUp(m, root, q, t);
    MkOf(t, d);
    MkFlip(d, a, p, true, t);
  }

  /** Down to the near child. */
  lemma DownNear(m: Mem, root: nat, path: Path, l: bool, near: Tree, x: nat, c: bool, far: Tree)
    requires At(m, root, path, Mk(l, near, x, c, far))
    ensures At(m, root, [Step(l, x, c, far)] + path, near)
    ensures Around([Step(l, x, c, far)] + path, near) == Around(path, Mk(l, near, x, c, far))
  {
    hide At, Around;
    var q := [Step(l, x, c, far)] + path;
    assert q[1..] == path;
    StepUp(m, root, q, near);
  }

  lemma DownFar(m: Mem, root: nat, path: Path, l: bool, near: Tree, x: nat, c: bool, far: Tree)
    requires At(m, root, path, Mk(l, near, x, c, far))
    ensures At(m, root, [Step(!l, x, c, near)] + path, far)
    ensures Around([Step(!l, x, c, near)] + path, far) == Around(path, Mk(l, near, x, c, far))
  {
    MkFlip(l, near, x, c, far);
    DownNear(m, root, path, !l, far, x, c, near);
  }

  lemma UpOne(m: Mem, root: nat, s: Step, path: Path, t: Tree)
    requires At(m, root, [s] + path, t)
    ensures At(m, root, path, Up(s, t)) && Around(path, Up(s, t)) == Around([s] + path, t)
  {
    hide At, Around;
    var q := [s] + path;
    assert q[1..] == path;
    StepUp(m, root, q, t);
  }

  /** Parent and grandparent get their colours for the last rotation. */
  lemma OuterColors(m: Mem, root: nat, rest: Path, d: bool, t: Tree, p: nat, c: Tree, g: nat, u: Tree)
    requires At(m, root, [Step(d, p, true, c)] + ([Step(d, g, false, u)] + rest), t)
    ensures p in m && g in m
    ensures var m' := m[p := m[p].(red := false)][g := m[g].(red := true)];
            At(m', root, rest, Mk(!d, u, g, true, Mk(!d, c, p, false, t)))
    ensures Around(rest, Mk(!d, u, g, true, Mk(!d, c, p, false, t))) ==
            Around([Step(d, p, true, c)] + ([Step(d, g, false, u)] + rest), t)
  {
    hide At, Around, Mk;
    var sp, sg := Step(d, p, true, c), Step(d, g, false, u);
    UpOne(m, root, sp, [sg] + rest, t);
    var pt := Up(sp, t);
    Cells(m, root, [sg] + rest, pt);
    Recolor(m, root, [sg] + rest, pt, false);
    MkColor(d, t, p, true, c, false);
    var m1 := m[p := m[p].(red := false)];
    var pb := Mk(d, t, p, false, c);
    UpOne(m1, root, sg, rest, pb);
    var gt := Up(sg, pb);
    Cells(m1, root, rest, gt);
    GrandApart(m1, root, sg, rest, pb);
    Recolor(m1, root, rest, gt, true);
    MkColor(d, pb, g, false, u, true);
    MkFlip(d, pb, g, true, u);
    MkFlip(d, t, p, false, c);
  }

  lemma MkColor(l: bool, a: Tree, x: nat, c: bool, b: Tree, c': bool)
    ensures var t := Mk(l, a, x, c, b); t.Node? && t.(red := c') == Mk(l, a, x, c', b)
  {
  }

  lemma GrandApart(m: Mem, root: nat, s: Step, path: Path, t: Tree)
    requires At(m, root, path, Up(s, t)) && t.Node?
    ensures t.id != s.id
  {
    TreeDistinct(path, Up(s, t));
    NodeApart(s.left, t, s.id, s.red, s.other);
    RootIn(t);
  }

  lemma OuterDone(m: Mem, root: nat, rest: Path, d: bool, t: Tree, p: nat, c: Tree, g: nat, u: Tree)
    requires At(m, root, rest, Mk(!d, Mk(!d, u, g, true, c), p, false, t))
    ensures At(m, root, [Step(d, p, false, Mk(!d, u, g, true, c))] + rest, t)
    ensures Around([Step(d, p, false, Mk(!d, u, g, true, c))] + rest, t) == Around(rest, Mk(!d, Mk(!d, u, g, true,
            c), p, false, t))
  {
    DownFar(m, root, rest, !d, Mk(!d, u, g, true, c), p, false, t);
  }

  /** The colours after the case of a red uncle. */
  lemma UncleOk(m: Mem, root: nat, rest: Path, sp: Step, sg: Step, t: Tree)
    requires At(m, root, [sp] + ([sg] + rest), t) && sg.other.Node?
    ensures sg.other.id in m && sp.id in m && sg.id in m
    ensures var m1 := m[sg.other.id := m[sg.other.id].(red := false)];
            var m' := m1[sp.id := m1[sp.id].(red := false)][sg.id := m1[sg.id].(red := true)];
            At(m', root, rest, Up(sg.(red := true, other := Black(sg.other)), Up(sp.(red := false), t)))
    ensures Around(rest, Up(sg.(red := true, other := Black(sg.other)), Up(sp.(red := false),
            t))) == Around([sp] + ([sg] + rest), t)
  {
    hide At, Around, Mk;
    var u, d, g := sg.other, sg.left, sg.id;
    UpOne(m, root, sp, [sg] + rest, t);
    var pt := Up(sp, t);
    UpOne(m, root, sg, rest, pt);
    DownFar(m, root, rest, d, pt, g, sg.red, u);
    var q := [Step(!d, g, sg.red, pt)] + rest;
    Cells(m, root, q, u);
    Recolor(m, root, q, u, false);
    var m1 := m[u.id := m[u.id].(red := false)];
    var ub := Black(u);
    UpOne(m1, root, Step(!d, g, sg.red, pt), rest, ub);
    MkFlip(d, pt, g, sg.red, ub);
    DownNear(m1, root, rest, d, pt, g, sg.red, ub);
    var s1 := Step(d, g, sg.red, ub);
    Cells(m1, root, [s1] + rest, pt);
    Recolor(m1, root, [s1] + rest, pt, false);
    MkColor(sp.left, t, sp.id, sp.red, sp.other, false);
    var m2 := m1[sp.id := m1[sp.id].(red := false)];
    var pb := Up(sp.(red := false), t);
    UpOne(m2, root, s1, rest, pb);
    var gt := Up(s1, pb);
    Cells(m2, root, rest, gt);
    GrandApart(m2, root, s1, rest, pb);
    Recolor(m2, root, rest, gt, true);
    MkColor(d, pb, g, sg.red, ub, true);
  }

  /** After the loop, with the root black. */
  lemma HighWhole(m: Mem, root: nat, path: Path, t: Tree, h: nat) returns (u: Tree, h': nat)
    requires At(m, root, path, t) && High(path, t, h) && (path == [] || !path[0].red)
    ensures root in m && At(m[root := m[root].(red := false)], root, [], u) && RedBlack(u, h')
            && Ids(u) == Around(path, t)
  {
    hide At, Around, Mk, High, Fine;
    HighIs(path, t, h);
    HighEnd(path, t, h);
    PlugIds(path, t);
    WholeIs(m, root, path, t);
    var w := Plug(path, t);
    PlugNode(path, t);
    Cells(m, root, [], w);
    Recolor(m, root, [], w, false);
    u := w.(red := false);
    if path == [] {
      FineWhole(u, h + 1);
      h' := h + 1;
    } else {
      h' := FineRoot(path, t, h);
    }
  }

  lemma {:induction false} PlugNode(path: Path, t: Tree)
    requires t.Node?
    ensures Plug(path, t).Node?
    decreases |path|
  {
    if path != [] { PlugNode(path[1..], Up(path[0], t)); }
  }

  lemma RedSiblingColors(m: Mem, root: nat, rest: Path, d: bool, t: Tree, p: nat, wn: Tree, w: nat, wf: Tree)
    requires At(m, root, [Step(d, p, false, Mk(d, wn, w, true, wf))] + rest, t)
    ensures w in m && p in m
    ensures var m' := m[w := m[w].(red := false)][p := m[p].(red := true)];
            At(m', root, rest, Mk(d, t, p, true, Mk(d, wn, w, false, wf)))
    ensures Around(rest, Mk(d, t, p, true, Mk(d, wn, w, false, wf))) == Around([Step(d, p, false, Mk(d, wn, w, true,
            wf))] + rest, t)
  {
    hide At, Around, Mk;
    var ww := Mk(d, wn, w, true, wf);
    var wb := Mk(d, wn, w, false, wf);
    SiblingColor(m, root, rest, d, t, p, false, ww, false);
    MkColor(d, wn, w, true, wf, false);
    var m1 := m[w := m[w].(red := false)];
    var pt := Mk(d, t, p, false, wb);
    Cells(m1, root, rest, pt);
    RootNotKid(m1, root, rest, d, t, p, false, wb);
    Recolor(m1, root, rest, pt, true);
    MkColor(d, t, p, false, wb, true);
  }

  /** The sibling gets a colour; then the place is that of the parent. */
  lemma SiblingColor(m: Mem, root: nat, rest: Path, d: bool, t: Tree, p: nat, c: bool, w: Tree, c': bool)
    requires At(m, root, [Step(d, p, c, w)] + rest, t) && w.Node?
    ensures w.id in m && At(m[w.id := m[w.id].(red := c')], root, rest, Mk(d, t, p, c, w.(red := c')))
    ensures Around(rest, Mk(d, t, p, c, w.(red := c'))) == Around([Step(d, p, c, w)] + rest, t)
  {
    hide At, Around, Mk;
    UpOne(m, root, Step(d, p, c, w), rest, t);
    DownFar(m, root, rest, d, t, p, c, w);
    var q := [Step(!d, p, c, t)] + rest;
    Cells(m, root, q, w);
    Recolor(m, root, q, w, c');
    var m1 := m[w.id := m[w.id].(red := c')];
    UpOne(m1, root, Step(!d, p, c, t), rest, w.(red := c'));
    MkFlip(d, t, p, c, w.(red := c'));
  }

  lemma RootNotKid(m: Mem, root: nat, path: Path, d: bool, t: Tree, p: nat, c: bool, w: Tree)
    requires At(m, root, path, Mk(d, t, p, c, w))
    ensures w.Node? ==> w.id != p
  {
    TreeDistinct(path, Mk(d, t, p, c, w));
    NodeApart(d, t, p, c, w);
    RootIn(w);
  }

  /** What the memory says of a sibling's children. */
  lemma SiblingKids(m: Mem, root: nat, sp: Step, rest: Path, t: Tree, d: bool)
    requires At(m, root, [sp] + rest, t) && sp.other.Node? && sp.left == d
    ensures sp.id in m && m[sp.id].Kid(!d) == sp.other.id && m[sp.id].red == sp.red
    ensures var w := sp.other;
            && w.id in m && m[w.id].left == Root(w.left) && m[w.id].right == Root(w.right)
            && KidIs(m, w.left) && KidIs(m, w.right)
  {
    hide At, Around, Mk;
    var w := sp.other;
    Cells(m, root, [sp] + rest, t);
    UpOne(m, root, sp, rest, t);
    DownFar(m, root, rest, d, t, sp.id, sp.red, w);
    var q := [Step(!d, sp.id, sp.red, t)] + rest;
    Cells(m, root, q, w);
    MkOf(w, true);
    DownNear(m, root, q, true, w.left, w.id, w.red, w.right);
    DownFar(m, root, q, true, w.left, w.id, w.red, w.right);
    Cells(m, root, [Step(true, w.id, w.red, w.right)] + q, w.left);
    Cells(m, root, [Step(false, w.id, w.red, w.left)] + q, w.right);
  }

  ghost predicate KidIs(m: Mem, t: Tree) {
    t.Node? ==> t.id != 0 && t.id in m && m[t.id].red == t.red
  }

  lemma NearColors(m: Mem, root: nat, rest: Path, d: bool, t: Tree, p: nat, c: bool, a: Tree, n: nat, b: Tree,
          w: nat, f: Tree)
    requires At(m, root, [Step(d, p, c, Mk(d, Mk(d, a, n, true, b), w, false, f))] + rest, t)
    ensures w in m && n in m && n != 0 && m[w].Kid(d) == n && w != n
    ensures var m' := m[n := m[n].(red := false)][w := m[w].(red := true)];
            At(m', root, [Step(!d, p, c, t)] + rest, Mk(!d, f, w, true, Mk(!d, b, n, false, a)))
    ensures Around([Step(!d, p, c, t)] + rest, Mk(!d, f, w, true, Mk(!d, b, n, false, a))) ==
            Around([Step(d, p, c, Mk(d, Mk(d, a, n, true, b), w, false, f))] + rest, t)
  {
    hide At, Around, Mk;
    var nn := Mk(d, a, n, true, b);
    var ww := Mk(d, nn, w, false, f);
    var q := [Step(!d, p, c, t)] + rest;
    UpOne(m, root, Step(d, p, c, ww), rest, t);
    DownFar(m, root, rest, d, t, p, c, ww);
    DownNear(m, root, q, d, nn, w, false, f);
    var s := Step(d, w, false, f);
    Cells(m, root, [s] + q, nn);
    Recolor(m, root, [s] + q, nn, false);
    MkColor(d, a, n, true, b, false);
    var nb := Mk(d, a, n, false, b);
    var m1 := m[n := m[n].(red := false)];
    UpOne(m1, root, s, q, nb);
    var wb := Mk(d, nb, w, false, f);
    Cells(m1, root, q, wb);
    GrandApart(m1, root, s, q, nb);
    Recolor(m1, root, q, wb, true);
    MkColor(d, nb, w, false, f, true);
    MkFlip(d, nb, w, true, f);
    MkFlip(d, a, n, false, b);
  }

  lemma NearDone(m: Mem, root: nat, rest: Path, d: bool, t: Tree, p: nat, c: bool, a: Tree, n: nat, b: Tree, w: nat,
          f: Tree)
    requires At(m, root, [Step(!d, p, c, t)] + rest, Mk(!d, Mk(!d, f, w, true, b), n, false, a))
    ensures At(m, root, [Step(d, p, c, Mk(d, a, n, false, Mk(d, b, w, true, f)))] + rest, t)
    ensures Around([Step(d, p, c, Mk(d, a, n, false, Mk(d, b, w, true, f)))] + rest, t) ==
            Around([Step(!d, p, c, t)] + rest, Mk(!d, Mk(!d, f, w, true, b), n, false, a))
  {
    hide At, Around, Mk;
    var x := Mk(d, a, n, false, Mk(d, b, w, true, f));
    MkFlip(d, a, n, false, Mk(d, b, w, true, f));
    MkFlip(d, b, w, true, f);
    UpOne(m, root, Step(!d, p, c, t), rest, x);
    MkFlip(d, t, p, c, x);
    DownNear(m, root, rest, d, t, p, c, x);
  }

  lemma MkNear(d: bool, a: Tree, x: nat, c: bool, b: Tree)
    ensures var t := Mk(d, a, x, c, b); t.Node? && Near(t, d) == a && Near(t, !d) == b
  {
  }

  lemma FarColors(m: Mem, root: nat, rest: Path, d: bool, t: Tree, p: nat, c: bool, a: Tree, w: nat, f: Tree)
    requires At(m, root, [Step(d, p, c, Mk(d, a, w, false, f))] + rest, t) && f.Node?
    ensures p in m && w in m && f.id in m && m[p].red == c && m[w].Kid(!d) == f.id != 0
    ensures p != w && w != f.id
    ensures var m1 := m[w := m[w].(red := c)];
            var m2 := m1[p := m1[p].(red := false)];
            At(m2[f.id := m2[f.id].(red := false)], root, rest, Mk(d, t, p, false, Mk(d, a, w, c, Black(f))))
    ensures Around(rest, Mk(d, t, p, false, Mk(d, a, w, c, Black(f)))) == Around([Step(d, p, c, Mk(d, a, w, false,
            f))] + rest, t)
  {
    hide At, Around, Mk;
    var ww, wc := Mk(d, a, w, false, f), Mk(d, a, w, c, f);
    Cells(m, root, [Step(d, p, c, ww)] + rest, t);
    SiblingKids(m, root, Step(d, p, c, ww), rest, t, d);
    MkNear(d, a, w, false, f);
    SiblingColor(m, root, rest, d, t, p, c, ww, c);
    MkColor(d, a, w, false, f, c);
    var m1 := m[w := m[w].(red := c)];
    var pt := Mk(d, t, p, c, wc);
    RootNotKid(m1, root, rest, d, t, p, c, wc);
    Cells(m1, root, rest, pt);
    Recolor(m1, root, rest, pt, false);
    MkColor(d, t, p, c, wc, false);
    var m2 := m1[p := m1[p].(red := false)];
    DownFar(m2, root, rest, d, t, p, false, wc);
    var s1 := Step(!d, p, false, t);
    var q := [s1] + rest;
    RootNotKid(m2, root, q, d, a, w, c, f);
    DownFar(m2, root, q, d, a, w, c, f);
    var s2 := Step(!d, w, c, a);
    Cells(m2, root, [s2] + q, f);
    Recolor(m2, root, [s2] + q, f, false);
    var m3 := m2[f.id := m2[f.id].(red := false)];
    UpOne(m3, root, s2, q, Black(f));
    MkFlip(d, a, w, c, Black(f));
    var wb := Mk(d, a, w, c, Black(f));
    UpOne(m3, root, s1, rest, wb);
    MkFlip(d, t, p, false, wb);
  }

  /** Only the root has no parent. */
  lemma RootAt(m: Mem, root: nat, path: Path, t: Tree)
    requires At(m, root, path, t)
    ensures root == Root(t) <==> path == []
    ensures t.Node? ==> t.id != 0 && t.id in m && m[t.id].red == t.red
  {
    Cells(m, root, path, t);
    if path != [] {
      RootOut(m, root, path, Root(t));
      RootIn(t);
      if t.Node? && root == t.id { NotOnPath(path, t, root); }
    }
  }

  lemma {:induction false} RootOut(m: Mem, root: nat, path: Path, x: nat)
    requires PathIs(m, root, path, x) && path != []
    ensures root != 0 && (root in Before(path) || root in After(path))
    decreases |path|
  {
    var s := path[0];
    if |path| > 1 {
      RootOut(m, root, path[1..], s.id);
    } else {
      assert s.id in [s.id];
    }
  }

  /** The side of a place that lacks a black node, which has a sibling. */
  lemma Side2(m: Mem, root: nat, path: Path, t: Tree, h: nat)
    requires At(m, root, path, t) && Low(path, t, h) && path != []
    ensures path[0].id in m && (m[path[0].id].left == Root(t) <==> path[0].left)
  {
    LowSibling(path, t, h);
    Side(m, root, path, t);
  }

  /** The whole tree, with the root black. */
  lemma FineBlack(m: Mem, root: nat, path: Path, t: Tree, h: nat) returns (u: Tree, h': nat)
    requires At(m, root, path, t) && Fine(path, t, h) && t.Node?
    ensures root in m && At(m[root := m[root].(red := false)], root, [], u) && RedBlack(u, h')
            && Ids(u) == Around(path, t)
  {
    hide At, Around, Mk, Fine;
    PlugIds(path, t);
    WholeIs(m, root, path, t);
    var w := Plug(path, t);
    PlugNode(path, t);
    Cells(m, root, [], w);
    Recolor(m, root, [], w, false);
    u := w.(red := false);
    h' := FineRoot(path, t, h);
  }

  lemma LowBlacken(m: Mem, root: nat, path: Path, t: Tree, h: nat) returns (u: Tree, h': nat)
    requires At(m, root, path, t) && Low(path, t, h) && t.Node? && (t.red || path == [])
    ensures t.id in m && At(m[t.id := m[t.id].(red := false)], root, [], u) && RedBlack(u, h')
            && Ids(u) == Around(path, t)
  {
    hide At, Around, Mk, Low, Fine;
    Cells(m, root, path, t);
    Recolor(m, root, path, t, false);
    var m1 := m[t.id := m[t.id].(red := false)];
    h' := LowEnd(path, t, h);
    PlugIds(path, Black(t));
    WholeIs(m1, root, path, Black(t));
    u := Plug(path, Black(t));
    h' := FineRoot(path, Black(t), h');
  }

  lemma EmptyTree(m: Mem, root: nat, path: Path, t: Tree, h: nat)
    requires At(m, root, path, t) && t.Leaf? && path == []
    ensures RedBlack(t, 0) && Ids(t) == Around(path, t)
  {
  }

  // ----- Removal

  lemma LeftStep(m: Mem, root: nat, q: Path, base: Path, t: Tree, h: nat) returns (h': nat)
    requires At(m, root, q + base, t) && Fine(q + base, t, h) && t.Node? && Before(q) == []
    ensures var q' := [Step(true, t.id, t.red, t.right)] + q;
            && At(m, root, q' + base, t.left) && Fine(q' + base, t.left, h')
                && Around(q' + base, t.left) == Around(q + base, t)
            && Before(q') == [] && Plug(q', t.left) == Plug(q, t)
  {
    hide At, Fine, Around, Mk;
    var s := Step(true, t.id, t.red, t.right);
    MkOf(t, true);
    h' := FineDown(q + base, true, t.left, t.id, t.red, t.right, h);
    DownNear(m, root, q + base, true, t.left, t.id, t.red, t.right);
    assert [s] + (q + base) == ([s] + q) + base && ([s] + q)[1..] == q;
    assert Up(s, t.left) == t;
  }

  lemma NotNull(m: Mem, root: nat, path: Path, t: Tree)
    requires At(m, root, path, t)
    ensures t.Node? ==> (t.left.Node? <==> Root(t.left) != 0) && (t.right.Node? <==> Root(t.right) != 0)
  {
    if t.Node? { assert Is(m, t.id, t.left) && Is(m, t.id, t.right); }
  }

  lemma AtDistinct(m: Mem, root: nat, path: Path, t: Tree)
    requires At(m, root, path, t)
    ensures Distinct(Around(path, t)) && (t.Node? ==> t.id in Around(path, t))
  {
    RootIn(t);
  }

  lemma MkNode(l: Tree, x: nat, c: bool, r: Tree)
    ensures Mk(true, l, x, c, r) == Node(l, x, c, r) == Mk(false, r, x, c, l)
  {
  }

  /** The whole way up from a part of it. */
  lemma {:induction false} Ups(m: Mem, root: nat, q: Path, rest: Path, t: Tree)
    ensures At(m, root, q + rest, t) <==> At(m, root, rest, Plug(q, t))
    ensures Around(q + rest, t) == Around(rest, Plug(q, t))
    decreases |q|
  {
    hide At, Around;
    if q == [] {
      assert q + rest == rest;
    } else {
      assert (q + rest)[1..] == q[1..] + rest && (q + rest)[0] == q[0];
      StepUp(m, root, q + rest, t);
      Ups(m, root, q[1..], rest, Up(q[0], t));
    }
  }

  /** The parent of a place below node `s.id`. */
  lemma ParentBase(m: Mem, root: nat, q: Path, s: Step, path: Path, t: Tree)
    requires At(m, root, q + ([s] + path), t)
    ensures ParentOf(q + ([s] + path)) == s.id <==> q == []
  {
    hide At, Around;
    var base := [s] + path;
    if q == [] {
      assert q + base == base;
    } else {
      Ups(m, root, q, base, t);
      UpOne(m, root, s, path, Plug(q, t));
      AtParts(m, root, path, Up(s, Plug(q, t)));
      NodeApart(s.left, Plug(q, t), s.id, s.red, s.other);
      PlugHas(q, t);
    }
  }

  lemma {:induction false} PlugHas(q: Path, t: Tree)
    requires q != []
    ensures q[0].id in Ids(Plug(q, t))
  {
    var u := Up(q[0], t);
    RootIn(u);
    PlugIds(q[1..], u);
  }

  /** The first node of the right subtree follows a node. */
  lemma FirstRight(path: Path, t: Tree, q: Path, tt: Tree)
    requires t.Node? && tt.Node? && tt.left.Leaf? && Before(q) == [] && Plug(q, tt) == t.right
    ensures Follows(Around(path, t), t.id, tt.id)
  {
    PlugIds(q, tt);
    var s, k := Around(path, t), |Before(path)| + |Ids(t.left)|;
    assert Ids(tt.left) == [] && Ids(tt)[0] == tt.id;
    assert Around(q, tt)[0] == tt.id;
    assert s[k] == t.id && s[k + 1] == tt.id;
  }

  ghost predicate Follows(s: seq<nat>, x: nat, y: nat) {
    exists k :: 0 <= k < |s| - 1 && s[k] == x && s[k + 1] == y
  }

  lemma GoneNow(s: seq<nat>, s': seq<nat>, x: nat)
    requires Distinct(s) && Lost(s, s', x)
    ensures x !in s' && (forall y :: y in s' <==> y in s && y != x)
  {
    var i :| 0 <= i < |s| && s[i] == x && s' == Without(s, i);
    forall y
      ensures y in s' <==> y in s && y != x
    {
      if y in s && y != x {
        var j :| 0 <= j < |s| && s[j] == y;
        assert s'[if j < i then j else j - 1] == y;
      }
      if y in s' {
        var j :| 0 <= j < |s'| && s'[j] == y;
        assert s[if j < i then j else j + 1] == y;
      }
    }
  }

  lemma SwapLost(s: seq<nat>, s1: seq<nat>, s2: seq<nat>, x: nat, y: nat)
    requires Distinct(s) && Lost(s, s1, y) && Follows(s, x, y)
    requires Swapped(s1, s2, x, y)
    ensures Lost(s, s2, x)
  {
    hide Distinct;
    var k :| 0 <= k < |s| - 1 && s[k] == x && s[k + 1] == y;
    var j :| 0 <= j < |s| && s[j] == y && s1 == Without(s, j);
    var i :| 0 <= i < |s1| && s1[i] == x && s2 == s1[i := y];
    SameIndex(s, j, k + 1);
    WithoutAt(s, j, i);
    SameIndex(s, if i < j then i else i + 1, k);
    SwapAt(s, k);
  }

  lemma SameIndex(s: seq<nat>, i: nat, j: nat)
    requires Distinct(s) && i < |s| && j < |s| && s[i] == s[j]
    ensures i == j
  {
  }

  lemma WithoutAt(s: seq<nat>, j: nat, i: nat)
    requires j < |s| && i < |s| - 1
    ensures |Without(s, j)| == |s| - 1 && Without(s, j)[i] == s[if i < j then i else i + 1]
  {
  }

  lemma SwapAt(s: seq<nat>, k: nat)
    requires k + 1 < |s|
    ensures Without(s, k + 1)[k := s[k + 1]] == Without(s, k)
  {
  }

  /** What lacks when a node with at most one child goes. */
  lemma FineLess(path: Path, l: bool, x: nat, c: bool, ct: Tree, h: nat) returns (h': nat)
    requires Fine(path, Mk(l, Leaf, x, c, ct), h)
    ensures if c then Fine(path, ct, h') else Low(path, ct, h')
  {
    hide PathBal, PathNoRedRed;
    MkIs(l, Leaf, x, c, ct, h);
    h' := if c then h else h - 1;
    if !c { BlackIs(ct, h'); }
  }

  /** The place does not care which node is above it. */
  lemma {:induction false} OtherId(q: Path, s: Step, y: nat, path: Path, t: Tree, h: nat)
    ensures var p, p' := q + ([s] + path), q + ([s.(id := y)] + path);
            && (Fine(p, t, h) <==> Fine(p', t, h)) && (Low(p, t, h) <==> Low(p', t, h))
  {
    OtherBal(q, s, y, path, h);
    OtherBal(q, s, y, path, h + 1);
    OtherRed(q, s, y, path);
    hide PathBal, PathNoRedRed;
    assert q == [] ==> q + ([s] + path) == [s] + path && q + ([s.(id := y)] + path) == [s.(id := y)] + path;
    assert q != [] ==> (q + ([s] + path))[0] == q[0] && (q + ([s.(id := y)] + path))[0] == q[0];
  }

  lemma {:induction false} OtherBal(q: Path, s: Step, y: nat, path: Path, h: nat)
    ensures PathBal(q + ([s] + path), h) <==> PathBal(q + ([s.(id := y)] + path), h)
    decreases |q|
  {
    var b, b' := [s] + path, [s.(id := y)] + path;
    if q == [] {
      assert q + b == b && q + b' == b';
      PathIsStep(s, path, h);
      PathIsStep(s.(id := y), path, h);
    } else {
      assert q + b == [q[0]] + (q[1..] + b) && q + b' == [q[0]] + (q[1..] + b');
      PathIsStep(q[0], q[1..] + b, h);
      PathIsStep(q[0], q[1..] + b', h);
      OtherBal(q[1..], s, y, path, if q[0].red then h else h + 1);
    }
  }

  lemma {:induction false} OtherRed(q: Path, s: Step, y: nat, path: Path)
    ensures PathNoRedRed(q + ([s] + path)) <==> PathNoRedRed(q + ([s.(id := y)] + path))
    decreases |q|
  {
    var b, b' := [s] + path, [s.(id := y)] + path;
    if q == [] {
      assert q + b == b && q + b' == b';
      PathIsStep(s, path, 0);
      PathIsStep(s.(id := y), path, 0);
    } else {
      var r := q[1..];
      assert q + b == [q[0]] + (r + b) && q + b' == [q[0]] + (r + b');
      PathIsStep(q[0], r + b, 0);
      PathIsStep(q[0], r + b', 0);
      assert (r + b)[0].red == (r + b')[0].red;
      OtherRed(r, s, y, path);
    }
  }

  lemma {:induction false} Locate(m: Mem, root: nat, path: Path, t: Tree, h: nat, x: nat) returns (path': Path,
          t': Tree, h': nat)
    requires At(m, root, path, t) && Fine(path, t, h) && x in Ids(t)
    ensures At(m, root, path', t') && Fine(path', t', h') && t'.Node? && t'.id == x
            && Around(path', t') == Around(path, t)
    decreases t
  {
    hide At, Fine, Around, Mk;
    if t.id == x {
      path', t', h' := path, t, h;
    } else {
      var l := x in Ids(t.left);
      MkOf(t, l);
      h' := FineDown(path, l, Near(t, l), t.id, t.red, Near(t, !l), h);
      DownNear(m, root, path, l, Near(t, l), t.id, t.red, Near(t, !l));
      path', t', h' := Locate(m, root, [Step(l, t.id, t.red, Near(t, !l))] + path, Near(t, l), h', x);
    }
  }

  lemma FineTop(m: Mem, root: nat, path: Path, t: Tree, h: nat) returns (u: Tree, h': nat)
    requires At(m, root, path, t) && Fine(path, t, h)
    ensures At(m, root, [], u) && RedBlack(u, h') && Ids(u) == Around(path, t)
  {
    hide At, Fine, Around;
    WholeIs(m, root, path, t);
    PlugIds(path, t);
    u := Plug(path, t);
    h' := FineRoot(path, t, h);
  }

  lemma LostSorted(s: seq<nat>, s': seq<nat>, x: nat, keys: map<nat, int>)
    requires Sorted(s, keys) && Lost(s, s', x)
    ensures Sorted(s', keys)
  {
    var i :| 0 <= i < |s| && s[i] == x && s' == Without(s, i);
    forall j | 0 <= j < |s'|
      ensures s'[j] == s[if j < i then j else j + 1]
    {
    }
  }

  /** A node that is not in the tree does not matter. */
  lemma Dropped(m: Mem, root: nat, t: Tree, x: nat)
    requires At(m, root, [], t) && x !in Ids(t)
    ensures At(m - {x}, root, [], t)
  {
    hide Distinct, Around;
    var m' := m - {x};
    assert Agree(m, m', Ids(t));
    IsSame(m, m', 0, t);
  }
}

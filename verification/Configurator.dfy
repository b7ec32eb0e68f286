/**
 The mutable configuration tree (base/include/grl/configurable.h): grafting, paths and
 lookup on linked nodes, against their meaning in ConfigTree and Paths.
 */
module Configurators {
  import opened Options
  import opened Paths
  import opened ConfigTree

  class Configurator {
    var element: string
    var parent: Configurator?
    var children: seq<Configurator>
    /** Element names on the way from the root. */
    ghost var names: Path

    constructor Root()
      ensures element == "" && parent == null && children == [] && names == []
      ensures ValidTree({this}, this)
    {
      element, parent, children, names := "", null, [], [];
    }

    /**
     A new node below `parent`. If the name is taken, the parent keeps its child and the new node only
     remembers its name and parent.
     */
    constructor (element: string, parent: Configurator, ghost nodes: set<Configurator>, ghost root: Configurator)
      requires ValidTree(nodes, root) && parent in nodes && GoodName(element)
      modifies parent
      ensures this.element == element && this.parent == parent && children == []
      ensures names == parent.names + [element]
      ensures unchanged(parent`element) && unchanged(parent`parent) && unchanged(parent`names)
      ensures parent.children == if old(Taken(parent, element)) then old(parent.children) else old(parent.children) + [this]
      ensures ValidTree(if old(Taken(parent, element)) then nodes else nodes + {this}, root)
    {
      this.element, this.parent, children := element, parent, [];
      names := parent.names + [element];
      new;
      Graft(element, parent, nodes, root);
    }

    /** The loop of `graft`, without overwriting. */
    method Graft(element: string, parent: Configurator, ghost nodes: set<Configurator>, ghost root: Configurator)
      requires ValidTree(nodes, root) && parent in nodes && this !in nodes && GoodName(element)
      requires children == [] && names == parent.names + [element]
      modifies this`element, this`parent, parent`children
      ensures this.element == element && this.parent == parent
      ensures parent.children == if old(Taken(parent, element)) then old(parent.children) else old(parent.children) + [this]
      ensures ValidTree(if old(Taken(parent, element)) then nodes else nodes + {this}, root)
    {
      this.element := element;
      this.parent := parent;
      for ii := 0 to |parent.children|
        invariant parent.children == old(parent.children) && children == []
        invariant forall k :: 0 <= k < ii ==> parent.children[k].element != element
      {
        if parent.children[ii].element == element {
          return;
        }
      }
      Append(parent, nodes, root);
    }

    /** parent_->children_.push_back(this), with the name free. */
    method Append(parent: Configurator, ghost nodes: set<Configurator>, ghost root: Configurator)
      requires ValidTree(nodes, root) && parent in nodes && this !in nodes && GoodName(element) && !Taken(parent, element)
      requires this.parent == parent && children == [] && names == parent.names + [element]
      modifies parent`children
      ensures parent.children == old(parent.children) + [this] && ValidTree(nodes + {this}, root)
    {
      ghost var others := nodes - {parent};
      assert forall n :: n in others ==> ValidNode(n, nodes, root);
      parent.children := parent.children + [this];
      forall n | n in nodes + {this} ensures ValidNode(n, nodes + {this}, root) {
        if n in others {
          assert n.parent == null || n in n.parent.children;
        }
      }
    }

    /** `path()`. */
    method GetPath(ghost nodes: set<Configurator>, ghost root: Configurator) returns (path: string)
      requires ValidTree(nodes, root) && this in nodes
      ensures path == Join(names)
      decreases |names|
    {
      if parent != null {
        var front := parent.GetPath(nodes, root);
        path := front + "/" + element;
        assert names[..|names| - 1] == parent.names;
      } else {
        path := element;
      }
    }

    method GetRoot(ghost nodes: set<Configurator>, ghost root: Configurator) returns (r: Configurator)
      requires ValidTree(nodes, root) && this in nodes
      ensures r == root
    {
      r := this;
      while r.parent != null
        invariant r in nodes
        decreases |r.names|
      {
        r := r.parent;
      }
    }

    /** `find` on plain nodes is the search in the tree's document. */
    method Find(path: string, ghost nodes: set<Configurator>, ghost root: Configurator) returns (r: Configurator?)
      requires ValidTree(nodes, root) && this in nodes
      ensures IsAt(r, ConfigTree.Find(Document(nodes, root), names, path), nodes)
      decreases |path|
    {
      if path == "" {
        return this;
      }
      var first, rest := First(path), After(path);
      PlainStep(Document(nodes, root), names, path);
      if first == "" {
        var top := GetRoot(nodes, root);
        r := top.Find(rest, nodes, root);
      } else if first == ".." {
        if parent != null {
          assert Parent(names) == parent.names;
          r := parent.Find(rest, nodes, root);
        } else {
          r := null;
        }
      } else {
        var child := FindChild(first, nodes, root);
        if child != null {
          assert Has(Document(nodes, root), child.names);
          r := child.Find(rest, nodes, root);
        } else {
          assert !Has(Document(nodes, root), names + [first]);
          r := null;
        }
      }
    }

    /** The loop over the children. */
    method FindChild(first: string, ghost nodes: set<Configurator>, ghost root: Configurator) returns (r: Configurator?)
      requires ValidTree(nodes, root) && this in nodes
      ensures r != null ==> r in nodes && r.names == names + [first]
      ensures r == null ==> forall n :: n in nodes ==> n.names != names + [first]
    {
      for ii := 0 to |children|
        invariant forall k :: 0 <= k < ii ==> children[k].element != first
      {
        if children[ii].element == first {
          return children[ii];
        }
      }
      forall n | n in nodes ensures n.names != names + [first] {
        if n.names == names + [first] {
          assert n.names[..|names|] == names == n.parent.names;
          NamesUnique(nodes, root, n.parent, this);
        }
      }
      r := null;
    }

    method RelativePathTo(m: Configurator, ghost nodes: set<Configurator>, ghost root: Configurator)
      returns (relative: string)
      requires ValidTree(nodes, root) && this in nodes && m in nodes && parent != null
      ensures Join(names) != "" && Join(names)[0] == '/' && relative == RelativePath(Join(names), Join(m.names))
    {
      var own := GetPath(nodes, root);
      var full := m.GetPath(nodes, root);
      JoinStarts(names);
      relative := ComputeRelativePath(own, full);
    }

    /** Following this node's relative path to `m` finds `m` if and only if no name is cut. */
    method FindRelative(m: Configurator, ghost nodes: set<Configurator>, ghost root: Configurator) returns (r: Configurator?)
      requires ValidTree(nodes, root) && this in nodes && m in nodes && parent != null
      ensures r == m <==> !CutsName(Join(names), Join(m.names))
    {
      ghost var works := !CutsName(Join(names), Join(m.names));
      RelativePathWorksIff(Document(nodes, root), names, m.names);
      var relative := RelativePathTo(m, nodes, root);
      ghost var found := ConfigTree.Find(Document(nodes, root), names, relative);
      assert works <==> found == Some(m.names);
      r := Find(relative, nodes, root);
      IsAtSame(r, found, nodes, root, m);
    }
  }

  /** One step of a search among nodes that all stand for themselves. */
  lemma PlainStep(t: Doc, at: Path, s: string)
    requires Plain(t) && s != ""
    ensures First(s) == "" ==> ConfigTree.Find(t, at, s) == ConfigTree.Find(t, [], After(s))
    ensures First(s) == ".." ==>
              ConfigTree.Find(t, at, s) == if at == [] then None else ConfigTree.Find(t, Parent(at), After(s))
    ensures First(s) != "" && First(s) != ".." ==>
              ConfigTree.Find(t, at, s) ==
              if Has(t, at + [First(s)]) then ConfigTree.Find(t, at + [First(s)], After(s)) else None
  {
  }

  /** The node with the path that was found, or null. */
  ghost predicate IsAt(r: Configurator?, found: Option<Path>, nodes: set<Configurator>)
    reads nodes
  {
    match found
    case None => r == null
    case Some(p) => r != null && r in nodes && r.names == p
  }

  ghost predicate Taken(parent: Configurator, element: string)
    reads parent, parent.children
  {
    exists k :: 0 <= k < |parent.children| && parent.children[k].element == element
  }

  /** Parent and child links agree, names are good and unique among siblings, and there is one root. */
  ghost predicate ValidTree(nodes: set<Configurator>, root: Configurator)
    reads nodes
  {
    && root in nodes && root.parent == null
    && (forall n :: n in nodes ==> ValidNode(n, nodes, root))
  }

  ghost predicate ValidNode(n: Configurator, nodes: set<Configurator>, root: Configurator)
    requires n in nodes
    reads nodes
  {
    && (forall i :: 0 <= i < |n.children| ==> n.children[i] in nodes && n.children[i].parent == n)
    && (forall i, j :: 0 <= i < j < |n.children| ==> n.children[i].element != n.children[j].element)
    && if n.parent == null
       then n == root && n.names == [] && n.element == ""
       else n.parent in nodes && n in n.parent.children && n.names == n.parent.names + [n.element] && GoodName(n.element)
  }

  /** The document lists exactly the paths of the nodes, and none of them is a reference. */
  ghost predicate Describes(t: Doc, nodes: set<Configurator>)
    reads nodes
  {
    Wf(t) && Plain(t) && forall p: Path :: Has(t, p) <==> Named(nodes, p)
  }

  /** One of the nodes has this path. */
  ghost predicate Named(nodes: set<Configurator>, p: Path)
    reads nodes
  {
    exists n :: n in nodes && n.names == p
  }

  lemma IsAtSame(r: Configurator?, found: Option<Path>, nodes: set<Configurator>, root: Configurator, m: Configurator)
    requires ValidTree(nodes, root) && m in nodes && IsAt(r, found, nodes)
    ensures r == m <==> found == Some(m.names)
  {
    if found == Some(m.names) {
      NamesUnique(nodes, root, r, m);
    }
  }

  /** With a node its parent is among these. */
  ghost predicate Closed(part: set<Configurator>)
    reads part
  {
    forall n :: n in part && n.parent != null ==> n.parent in part
  }

  lemma {:induction false} Deepest(part: set<Configurator>) returns (d: Configurator)
    requires part != {}
    ensures d in part && forall n :: n in part ==> |n.names| <= |d.names|
    decreases |part|
  {
    d :| d in part;
    if part != {d} {
      var e := Deepest(part - {d});
      if |e.names| > |d.names| {
        d := e;
      }
    }
  }

  lemma GrownIndex(t: Doc, p: Path, q: Path)
    requires !Has(t, p)
    ensures var u := t + [Node(p, Group)]; Index(u, q) == if Has(t, q) then Index(t, q) else if q == p then |t| else |u|
  {
    var u := t + [Node(p, Group)];
    assert u[..|u| - 1] == t;
  }

  lemma GrownNode(t: Doc, p: Path, i: nat)
    requires Wf(t) && Plain(t) && GoodNames(p) && !Has(t, p) && (p != [] ==> Has(t, Parent(p))) && i <= |t|
    ensures var u := t + [Node(p, Group)];
            && GoodNames(u[i].path) && u[i].content.Group? && Index(u, u[i].path) == i
            && BelowGroup(u, i)
  {
    var u := t + [Node(p, Group)];
    GrownIndex(t, p, u[i].path);
    if i < |t| {
      assert BelowGroup(t, i);
      assert u[i] == t[i] && u[..i] == t[..i];
    } else {
      assert u[..i] == t;
    }
  }

  /** A group with a new path below a known group comes last. */
  lemma GrownDocument(t: Doc, p: Path)
    requires Wf(t) && Plain(t) && GoodNames(p) && !Has(t, p) && (p != [] ==> Has(t, Parent(p)))
    ensures var u := t + [Node(p, Group)]; Wf(u) && Plain(u)
  {
    var u := t + [Node(p, Group)];
    forall i | 0 <= i < |u|
      ensures GoodNames(u[i].path) && u[i].content.Group? && Index(u, u[i].path) == i
      ensures BelowGroup(u, i)
    {
      GrownNode(t, p, i);
    }
  }

  /** A node whose parent is listed can be listed next. */
  lemma CanBeListed(t: Doc, rest: set<Configurator>, d: Configurator, nodes: set<Configurator>, root: Configurator)
    requires ValidTree(nodes, root) && rest <= nodes && d in nodes && d !in rest && Describes(t, rest)
    requires d.parent != null ==> d.parent in rest
    ensures GoodNames(d.names) && !Has(t, d.names) && (d.names != [] ==> Has(t, Parent(d.names)))
  {
    if d.parent != null {
      assert Parent(d.names) == d.parent.names;
      assert Named(rest, d.parent.names);
      HasIsRooted(t, d.parent.names);
    }
    if Has(t, d.names) {
      var n :| n in rest && n.names == d.names;
      NamesUnique(nodes, root, n, d);
    }
  }

  lemma ListedNext(t: Doc, rest: set<Configurator>, d: Configurator, part: set<Configurator>)
    requires Describes(t, rest) && part == rest + {d} && d !in rest
    requires GoodNames(d.names) && !Has(t, d.names) && (d.names != [] ==> Has(t, Parent(d.names)))
    ensures Describes(t + [Node(d.names, Group)], part)
  {
    GrownDocument(t, d.names);
    var u := t + [Node(d.names, Group)];
    forall p: Path
      ensures Has(u, p) <==> Named(part, p)
    {
      GrownIndex(t, d.names, p);
      NamedMore(rest, d, part, p);
    }
  }

  lemma NamedMore(rest: set<Configurator>, d: Configurator, part: set<Configurator>, p: Path)
    requires part == rest + {d}
    ensures Named(part, p) <==> Named(rest, p) || p == d.names
  {
    if Named(rest, p) {
      var n :| n in rest && n.names == p;
      assert n in part;
    }
    assert d in part;
  }

  /** The deepest of these nodes comes last in their document. */
  lemma {:induction false} PartHasDocument(part: set<Configurator>, nodes: set<Configurator>, root: Configurator)
    returns (t: Doc)
    requires ValidTree(nodes, root) && part <= nodes && Closed(part)
    ensures Describes(t, part)
    decreases |part|
  {
    if part == {} {
      t := [];
    } else {
      var d := Deepest(part);
      var rest := part - {d};
      ChildIsDeeper(nodes, root);
      t := PartHasDocument(rest, nodes, root);
      CanBeListed(t, rest, d, nodes, root);
      ListedNext(t, rest, d, part);
      t := t + [Node(d.names, Group)];
    }
  }

  lemma ChildIsDeeper(nodes: set<Configurator>, root: Configurator)
    requires ValidTree(nodes, root)
    ensures forall n :: n in nodes && n.parent != null ==> |n.names| == |n.parent.names| + 1
  {
  }

  lemma HasDocument(nodes: set<Configurator>, root: Configurator)
    requires ValidTree(nodes, root)
    ensures exists t :: Describes(t, nodes)
  {
    var t := PartHasDocument(nodes, nodes, root);
  }

  /** The nodes of a tree as a list of paths, parents first. */
  ghost function Document(nodes: set<Configurator>, root: Configurator): (t: Doc)
    requires ValidTree(nodes, root)
    reads nodes
    ensures Describes(t, nodes)
  {
    HasDocument(nodes, root);
    var t :| Describes(t, nodes);
    t
  }

  /** A node is known by its names. */
  lemma {:induction false} NamesUnique(nodes: set<Configurator>, root: Configurator, a: Configurator, b: Configurator)
    requires ValidTree(nodes, root) && a in nodes && b in nodes && a.names == b.names
    ensures a == b
    decreases |a.names|
  {
    if a.parent != null {
      assert a.names[..|a.names| - 1] == a.parent.names && b.names[..|b.names| - 1] == b.parent.names;
      NamesUnique(nodes, root, a.parent, b.parent);
      var i :| 0 <= i < |a.parent.children| && a.parent.children[i] == a;
      var j :| 0 <= j < |a.parent.children| && a.parent.children[j] == b;
      assert a.element == a.names[|a.names| - 1] == b.element;
    }
  }
}

/** The node tree of the virtual file system (src/vfs.c): nodes linked in place by parent, first
    child and next sibling; printing and resolving paths. */
module Vfs {
  import opened Paths

  const NAME_MAX := 64
  const PATH_MAX := 256
  const NONE := -1

  datatype Node = Node(name: string, parent: int, child: int, sibling: int)

  /** Node 0 is the root, and a node is linked in when it is made, so links go to older nodes. */
  ghost predicate Linked(t: seq<Node>) {
    && |t| > 0 && t[0].parent == NONE && t[0].sibling == NONE
    && (forall i :: 0 < i < |t| ==> 0 <= t[i].parent < i && NONE <= t[i].sibling < i)
    && (forall i :: 0 <= i < |t| ==> NONE <= t[i].child < |t|)
  }

  /** The nodes of a sibling list. */
  ghost predicate Reaches(t: seq<Node>, from: int, i: int)
    requires Linked(t) && NONE <= from < |t|
    decreases from + 1
  {
    from != NONE && (from == i || Reaches(t, t[from].sibling, i))
  }

  /** The list that starts at a node's first child holds just its children. */
  ghost predicate Threaded(t: seq<Node>)
    requires Linked(t)
  {
    forall p, i {:trigger Reaches(t, t[p].child, i)} :: 0 <= p < |t| && 0 <= i < |t| ==>
      (Reaches(t, t[p].child, i) <==> t[i].parent == p)
  }

  /** Sibling names differ. */
  ghost predicate Distinct(t: seq<Node>) {
    forall i :: 0 < i < |t| ==> NoOther(t, i)
  }

  /** No other child of the same parent has the name of node i. */
  ghost predicate NoOther(t: seq<Node>, i: int)
    requires 0 < i < |t|
  {
    forall j :: 0 < j < |t| && j != i && t[j].parent == t[i].parent ==> t[j].name != t[i].name
  }

  ghost predicate Named(t: seq<Node>) { forall i :: 0 < i < |t| ==> IsProper(t[i].name) && |t[i].name| < NAME_MAX }

  ghost predicate Tree(t: seq<Node>) { Linked(t) && Threaded(t) && Distinct(t) && Named(t) }

  /** A tree but for nodes that may be called "." or "..", which no path leads to. */
  ghost predicate Shape(t: seq<Node>) { Linked(t) && Threaded(t) && Distinct(t) }

  // ----- looking up -----

  /** The child of p with this name. */
  ghost predicate IsChild(t: seq<Node>, p: int, name: string, i: int) {
    0 < i < |t| && t[i].parent == p && t[i].name == name
  }

  /** The components lead from one node to another. */
  ghost predicate Walks(t: seq<Node>, from: int, ss: seq<string>, to: int)
    decreases |ss|, 0
  {
    if ss == [] then to == from else WalksOn(t, from, ss[..|ss| - 1], ss[|ss| - 1], to)
  }

  ghost predicate WalksOn(t: seq<Node>, from: int, ss: seq<string>, s: string, to: int)
    decreases |ss|, 1
  {
    exists mid :: Walks(t, from, ss, mid) && Goes(t, mid, s, to)
  }

  /** One component. */
  ghost predicate Goes(t: seq<Node>, from: int, s: string, to: int) {
    0 <= from < |t| && (
      if s == "." then to == from
      else if s == ".." then to == (if t[from].parent == NONE then from else t[from].parent)
      else IsChild(t, from, s, to))
  }

  lemma {:induction false} WalksSnoc(t: seq<Node>, from: int, ss: seq<string>, s: string, mid: int, to: int)
    requires Walks(t, from, ss, mid) && Goes(t, mid, s, to)
    ensures Walks(t, from, ss + [s], to)
  {
    assert (ss + [s])[..|ss|] == ss;
    assert WalksOn(t, from, ss, s, to);
  }

  /** A path leads somewhere only if each beginning of it does. */
  lemma {:induction false} WalksPrefix(t: seq<Node>, from: int, ss: seq<string>, k: nat, to: int) returns (mid: int)
    requires k <= |ss| && Walks(t, from, ss, to)
    ensures Walks(t, from, ss[..k], mid) && (k == |ss| ==> mid == to)
    ensures k < |ss| ==> exists next :: Goes(t, mid, ss[k], next)
  {
    if k == |ss| {
      mid := to;
      assert ss[..k] == ss;
    } else {
      var xs := ss[..|ss| - 1];
      assert WalksOn(t, from, xs, ss[|ss| - 1], to);
      var m :| Walks(t, from, xs, m) && Goes(t, m, ss[|ss| - 1], to);
      mid := WalksPrefix(t, from, xs, k, m);
      assert xs[..k] == ss[..k];
    }
  }

  /** There is at most one node to go to. */
  lemma {:induction false} WalksUnique(t: seq<Node>, from: int, ss: seq<string>, a: int, b: int)
    requires Linked(t) && Distinct(t) && Walks(t, from, ss, a) && Walks(t, from, ss, b)
    ensures a == b
  {
    if ss != [] {
      var xs, s := ss[..|ss| - 1], ss[|ss| - 1];
      var m :| Walks(t, from, xs, m) && Goes(t, m, s, a);
      var n :| Walks(t, from, xs, n) && Goes(t, n, s, b);
      WalksUnique(t, from, xs, m, n);
      if IsChild(t, m, s, a) && IsChild(t, m, s, b) {
        assert NoOther(t, a);
      }
    }
  }

  // ----- printing -----

  /** The names from the root down to a node. */
  ghost function Names(t: seq<Node>, n: int): (ss: seq<string>)
    requires Linked(t) && 0 <= n < |t|
    ensures Named(t) ==> AllProper(ss) && forall i :: 0 <= i < |ss| ==> |ss[i]| < NAME_MAX
    decreases n
  {
    if n == 0 then [] else Names(t, t[n].parent) + [t[n].name]
  }

  /** The names lead back to the node. */
  lemma {:induction false} NamesLead(t: seq<Node>, n: int)
    requires Tree(t) && 0 <= n < |t|
    ensures Walks(t, 0, Names(t, n), n)
    decreases n
  {
    if n > 0 {
      NamesLead(t, t[n].parent);
      WalksSnoc(t, 0, Names(t, t[n].parent), t[n].name, t[n].parent, n);
    }
  }

  /** ... and to no other one, unless the names are not all proper. */
  lemma {:induction false} LeadNames(t: seq<Node>, ss: seq<string>, n: int)
    requires Tree(t) && AllProper(ss) && Walks(t, 0, ss, n)
    ensures 0 <= n < |t| && Names(t, n) == ss
  {
    if ss != [] {
      var xs, s := ss[..|ss| - 1], ss[|ss| - 1];
      var m :| Walks(t, 0, xs, m) && Goes(t, m, s, n);
      LeadNames(t, xs, m);
      assert ss == xs + [s];
    }
  }

  /** Normalising keeps where a path leads, if it leads anywhere. */
  lemma {:induction false} ReduceLeads(t: seq<Node>, ss: seq<string>, n: int)
    requires Tree(t) && AllNames(ss) && Walks(t, 0, ss, n)
    ensures Walks(t, 0, Reduce(ss), n)
  {
    if ss != [] {
      var xs, s := ss[..|ss| - 1], ss[|ss| - 1];
      var m :| Walks(t, 0, xs, m) && Goes(t, m, s, n);
      ReduceLeads(t, xs, m);
      var stack := Reduce(xs);
      if s == ".." {
        LeadNames(t, stack, m);
        if m > 0 {
          NamesLead(t, t[m].parent);
          assert stack[..|stack| - 1] == Names(t, t[m].parent);
        }
      } else if s != "." {
        WalksSnoc(t, 0, stack, s, m, n);
      }
    }
  }

  /** oh_normalize_path leads to the same node as the path it was given. */
  lemma {:induction false} NormalLeads(t: seq<Node>, p: string, n: int)
    requires Tree(t) && Walks(t, 0, Segments(p), n)
    ensures Walks(t, 0, Segments(Normal(p)), n)
  {
    ReduceLeads(t, Segments(p), n);
    SegmentsJoin(Reduce(Segments(p)));
  }

  // ----- growing -----

  /** new_node and add_child: the new node becomes the first child. */
  function Grown(t: seq<Node>, p: nat, name: string): seq<Node>
    requires p < |t|
  {
    t[p := t[p].(child := |t|)] + [Node(name, p, NONE, t[p].child)]
  }

  lemma {:induction false} ReachesBelow(t: seq<Node>, from: int, i: int)
    requires Linked(t) && NONE <= from < |t| && Reaches(t, from, i)
    ensures 0 <= i <= from
    decreases from + 1
  {
    if from != i {
      ReachesBelow(t, t[from].sibling, i);
    }
  }

  /** The old lists stay as they were. */
  lemma {:induction false} ReachesSame(t: seq<Node>, t': seq<Node>, from: int, i: int)
    requires Linked(t) && Linked(t') && |t| <= |t'| && NONE <= from < |t|
    requires forall k :: 0 <= k < |t| ==> t'[k].sibling == t[k].sibling
    ensures Reaches(t', from, i) == Reaches(t, from, i)
    decreases from + 1
  {
    if from != NONE {
      ReachesSame(t, t', t[from].sibling, i);
    }
  }

  lemma {:induction false} GrownThreaded(t: seq<Node>, p: nat, name: string)
    requires Linked(t) && Threaded(t) && p < |t|
    ensures Linked(Grown(t, p, name)) && Threaded(Grown(t, p, name))
  {
    var t' := Grown(t, p, name);
    forall q, i | 0 <= q < |t'| && 0 <= i < |t'|
      ensures Reaches(t', t'[q].child, i) <==> t'[i].parent == q
    {
      if q < |t| {
        GrownReaches(t, p, name, q, i);
      }
    }
  }

  /** The old lists, with the new node in front of one of them. */
  lemma {:induction false} GrownReaches(t: seq<Node>, p: nat, name: string, q: nat, i: nat)
    requires Linked(t) && Threaded(t) && p < |t| && q < |t| && i <= |t| && Linked(Grown(t, p, name))
    ensures var t' := Grown(t, p, name); Reaches(t', t'[q].child, i) <==> t'[i].parent == q
  {
    ReachesSame(t, Grown(t, p, name), t[q].child, i);
    if i == |t| && Reaches(t, t[q].child, i) {
      ReachesBelow(t, t[q].child, i);
    } else if i < |t| {
      assert Reaches(t, t[q].child, i) <==> t[i].parent == q;
    }
  }

  lemma {:induction false} GrownShape(t: seq<Node>, p: nat, name: string)
    requires Shape(t) && p < |t| && forall i :: !IsChild(t, p, name, i)
    ensures Shape(Grown(t, p, name))
  {
    GrownThreaded(t, p, name);
    var t' := Grown(t, p, name);
    forall i | 0 < i < |t'| ensures NoOther(t', i) {
      assert i < |t| ==> NoOther(t, i);
      forall j | 0 < j < |t'| && j != i && t'[j].parent == t'[i].parent ensures t'[j].name != t'[i].name {
        assert !IsChild(t, p, name, i) && !IsChild(t, p, name, j);
      }
    }
  }

  lemma {:induction false} GrownTree(t: seq<Node>, p: nat, name: string)
    requires Tree(t) && p < |t| && IsProper(name) && |name| < NAME_MAX && forall i :: !IsChild(t, p, name, i)
    ensures Tree(Grown(t, p, name))
  {
    GrownShape(t, p, name);
  }

  /** The nodes of t are those of t', with their names and parents. */
  ghost predicate Grows(t: seq<Node>, t': seq<Node>) {
    |t| <= |t'| && forall i :: 0 <= i < |t| ==> t'[i].name == t[i].name && t'[i].parent == t[i].parent
  }

  lemma {:induction false} NamesKept(t: seq<Node>, t': seq<Node>, n: int)
    requires Linked(t) && Linked(t') && Grows(t, t') && 0 <= n < |t|
    ensures Names(t', n) == Names(t, n)
    decreases n
  {
    if n > 0 {
      NamesKept(t, t', t[n].parent);
    }
  }

  /** The names from the root determine a node. */
  lemma {:induction false} NamesUnique(t: seq<Node>, m: int, n: int)
    requires Shape(t) && 0 <= m < |t| && 0 <= n < |t| && Names(t, m) == Names(t, n)
    ensures m == n
    decreases m
  {
    if m > 0 && n > 0 {
      var xs, ys := Names(t, t[m].parent), Names(t, t[n].parent);
      assert (xs + [t[m].name])[..|xs|] == xs && (ys + [t[n].name])[..|ys|] == ys;
      NamesUnique(t, t[m].parent, t[n].parent);
      assert NoOther(t, m);
    }
  }

  /** Some node is reached from the root by these names, taken literally. */
  ghost predicate Exists(t: seq<Node>, ss: seq<string>)
    requires Linked(t)
  {
    exists n :: 0 <= n < |t| && Names(t, n) == ss
  }

  lemma {:induction false} ExistsChild(t: seq<Node>, p: nat, name: string)
    requires Shape(t) && p < |t|
    ensures Exists(t, Names(t, p) + [name]) <==> exists i :: IsChild(t, p, name, i)
  {
    var ss := Names(t, p) + [name];
    if i :| IsChild(t, p, name, i) {
      assert Names(t, i) == ss;
    }
    if Exists(t, ss) {
      var n :| 0 <= n < |t| && Names(t, n) == ss;
      assert ss[..|ss| - 1] == Names(t, p);
      NamesUnique(t, t[n].parent, p);
      assert IsChild(t, p, name, n);
    }
  }

  /** What vfs_mkdir has reached after `done` components. */
  ghost predicate Making(t0: seq<Node>, t: seq<Node>, ss: seq<string>, done: nat, parent: nat) {
    && Linked(t0) && Shape(t) && Grows(t0, t)
    && done <= |ss| && parent < |t| && Names(t, parent) == ss[..done]
    && (forall i :: |t0| <= i < |t| ==> |Names(t, i)| <= done)
  }

  /** The tree is in order exactly when none of the components made is special. */
  ghost predicate MadeProper(t0: seq<Node>, t: seq<Node>, ss: seq<string>, done: nat)
    requires done <= |ss|
  {
    Tree(t0) ==> (Tree(t) <==> AllProper(ss[..done]))
  }

  lemma {:induction false} MakingBegins(t: seq<Node>, ss: seq<string>)
    requires Shape(t)
    ensures Making(t, t, ss, 0, 0) && MadeProper(t, t, ss, 0)
  {
    assert ss[..0] == [] && Names(t, 0) == [];
  }

  /** What vfs_mkdir leaves: `made` components are there, all unless one is too long.  The tree is in
      order exactly when none of them is "." or "..". */
  ghost predicate MkdirDone(t0: seq<Node>, t: seq<Node>, path: string, r: MkdirAnswer, made: nat) {
    var ss := Segments(path);
    && Linked(t0) && Shape(t) && Grows(t0, t)
    && made <= |ss| && (r.Stopped? <==> made < |ss|) && (made < |ss| ==> |ss[made]| >= NAME_MAX)
    && Exists(t, ss[..made])
    && MadeProper(t0, t, ss, made)
    && (r.Made? <==> made == |ss| > 0 && path[|path| - 1] != '/' && !Exists(t0, ss))
  }

  /** Without a further component there is nothing more to make. */
  lemma {:induction false} MkdirFails(t0: seq<Node>, t: seq<Node>, path: string, cursor: nat, done: nat, parent: nat)
    requires Making(t0, t, Segments(path), done, parent) && MadeProper(t0, t, Segments(path), done)
    requires Left(path, cursor, Segments(path), done) && (cursor < |path| || path == "")
    ensures done == |Segments(path)| ==> MkdirDone(t0, t, path, Refused, done)
    ensures done < |Segments(path)| && |Segments(path)[done]| >= NAME_MAX ==> MkdirDone(t0, t, path, Stopped, done)
  {
    if done == |Segments(path)| {
      OnlySlashes(path[cursor..]);
    }
  }

  lemma {:induction false} MkdirEnds(t0: seq<Node>, t: seq<Node>, path: string, i: nat, created: bool)
    requires Making(t0, t, Segments(path), |Segments(path)|, i) && MadeProper(t0, t, Segments(path), |Segments(path)|)
    requires Segments(path) != [] && path != "" && path[|path| - 1] != '/'
    requires created <==> !Exists(t0, Segments(path))
    ensures MkdirDone(t0, t, path, if created then Made else Refused, |Segments(path)|)
  {
    assert Segments(path)[..|Segments(path)|] == Segments(path);
  }

  /** One component: the tree after FindOrCreate is t, the one before t1. */
  ghost predicate Stepped(t1: seq<Node>, t: seq<Node>, parent: nat, name: string, i: nat) {
    && Shape(t1) && Shape(t) && Grows(t1, t) && parent < |t1| && IsChild(t, parent, name, i)
    && (t == t1 || (i == |t1| && |t| == i + 1 && forall k :: !IsChild(t1, parent, name, k)))
  }

  lemma {:induction false} SteppedNames(t1: seq<Node>, t: seq<Node>, parent: nat, name: string, i: nat)
    requires Stepped(t1, t, parent, name, i)
    ensures Names(t, i) == Names(t1, parent) + [name]
    ensures forall k :: 0 <= k < |t1| ==> Names(t, k) == Names(t1, k)
  {
    forall k | 0 <= k < |t1| ensures Names(t, k) == Names(t1, k) {
      NamesKept(t1, t, k);
    }
  }

  /** The component is made exactly when nothing had that name. */
  lemma {:induction false} SteppedNew(t0: seq<Node>, t1: seq<Node>, t: seq<Node>, parent: nat, name: string, i: nat)
    requires Stepped(t1, t, parent, name, i) && Linked(t0) && Grows(t0, t1)
    requires forall k :: |t0| <= k < |t1| ==> |Names(t1, k)| <= |Names(t1, parent)|
    ensures i == |t1| <==> !Exists(t0, Names(t1, parent) + [name])
  {
    var ss := Names(t1, parent) + [name];
    ExistsChild(t1, parent, name);
    if i < |t1| {
      SteppedNames(t1, t, parent, name, i);
      assert Names(t1, i) == ss;
      NamesKept(t0, t1, i);
    } else if Exists(t0, ss) {
      var n :| 0 <= n < |t0| && Names(t0, n) == ss;
      NamesKept(t0, t1, n);
    }
  }

  lemma {:induction false} MakingNext(t0: seq<Node>, t1: seq<Node>, t: seq<Node>, ss: seq<string>, done: nat,
                                      parent: nat, i: nat)
    requires Making(t0, t1, ss, done, parent) && done < |ss| && Stepped(t1, t, parent, ss[done], i)
    ensures Making(t0, t, ss, done + 1, i)
  {
    SteppedNames(t1, t, parent, ss[done], i);
    assert ss[..done + 1] == ss[..done] + [ss[done]];
  }

  lemma {:induction false} MakingNew(t0: seq<Node>, t1: seq<Node>, t: seq<Node>, ss: seq<string>, done: nat,
                                     parent: nat, i: nat)
    requires Making(t0, t1, ss, done, parent) && done < |ss| && Stepped(t1, t, parent, ss[done], i)
    ensures i == |t1| <==> !Exists(t0, ss[..done + 1])
  {
    SteppedNew(t0, t1, t, parent, ss[done], i);
    assert ss[..done + 1] == ss[..done] + [ss[done]];
  }

  lemma {:induction false} MadeNext(t0: seq<Node>, t1: seq<Node>, t: seq<Node>, ss: seq<string>, done: nat)
    requires done < |ss| && MadeProper(t0, t1, ss, done) && Shape(t1) && Grows(t1, t)
    requires Tree(t1) ==> (Tree(t) <==> IsProper(ss[done]))
    ensures MadeProper(t0, t, ss, done + 1)
  {
    StillImproper(t1, t);
    assert ss[..done + 1] == ss[..done] + [ss[done]];
    assert AllProper(ss[..done + 1]) <==> AllProper(ss[..done]) && IsProper(ss[done]);
  }

  lemma {:induction false} StillImproper(t: seq<Node>, t': seq<Node>)
    requires Shape(t) && Grows(t, t')
    ensures Tree(t') ==> Tree(t)
  {
    forall i | Tree(t') && 0 < i < |t| ensures IsProper(t[i].name) && |t[i].name| < NAME_MAX {
      assert t'[i].name == t[i].name;
    }
  }

  lemma {:induction false} OnlySlashes(p: string)
    requires Segments(p) == []
    ensures p != "" ==> p[|p| - 1] == '/'
  {
    if |p| > 1 {
      OnlySlashes(p[1..]);
    }
  }

  /** Made: 0.  Refused: -1.  Stopped: the kernel panics. */
  datatype MkdirAnswer = Made | Refused | Stopped

  /** What vfs_resolve returns; the kernel panics on a component of 64 characters or more. */
  datatype Answer = At(node: nat) | Missing | Panic

  class FileSystem {
    var t: seq<Node>

    ghost predicate Valid()
      reads this
    {
      Tree(t)
    }

    constructor ()
      ensures Valid() && |t| == 1
    {
      t := [Node("", NONE, NONE, NONE)];
    }

    /** find_child */
    method FindChild(p: nat, name: string) returns (i: int)
      requires Shape(t) && p < |t|
      ensures if i == NONE then forall k :: !IsChild(t, p, name, k) else IsChild(t, p, name, i)
    {
      i := t[p].child;
      while i != NONE
        invariant NONE <= i < |t| && (forall k :: IsChild(t, p, name, k) ==> Reaches(t, i, k))
        invariant forall k :: Reaches(t, i, k) ==> Reaches(t, t[p].child, k)
        decreases i + 1
      {
        assert Reaches(t, i, i) && Reaches(t, t[p].child, i);
        if t[i].name == name {
          return;
        }
        i := t[i].sibling;
      }
    }

    /** find_or_create_directory.  It takes any name, so it keeps the tree exactly when the name is not
        one of the two special ones. */
    method FindOrCreate(p: nat, name: string) returns (i: nat)
      requires Shape(t) && p < |t| && IsName(name) && |name| < NAME_MAX
      modifies this
      ensures Shape(t) && IsChild(t, p, name, i) && Grows(old(t), t)
      ensures t == old(t) || (i == |old(t)| && t == Grown(old(t), p, name) && forall k :: !IsChild(old(t), p, name, k))
      ensures Stepped(old(t), t, p, name, i)
      ensures old(Valid()) ==> (Valid() <==> IsProper(name))
    {
      var k := FindChild(p, name);
      if k != NONE {
        return k;
      }
      GrownShape(t, p, name);
      i := |t|;
      t := Grown(t, p, name);
      assert t[i].name == name;
    }

    /** One component of vfs_mkdir. */
    method MakeNext(parent: nat, name: string, ghost t0: seq<Node>, ghost ss: seq<string>, ghost done: nat)
      returns (i: nat, created: bool)
      requires Making(t0, t, ss, done, parent) && done < |ss| && name == ss[done] && IsName(name) && |name| < NAME_MAX
      requires MadeProper(t0, t, ss, done)
      modifies this
      ensures Making(t0, t, ss, done + 1, i) && MadeProper(t0, t, ss, done + 1)
      ensures created <==> !Exists(t0, ss[..done + 1])
    {
      var last := |t|;
      i := FindOrCreate(parent, name);
      MakingNext(t0, old(t), t, ss, done, parent, i);
      MakingNew(t0, old(t), t, ss, done, parent, i);
      MadeNext(t0, old(t), t, ss, done);
      created := i == last;
    }

    /** vfs_mkdir: every component is made if need be, and the result is 0 when the last one ends the
        path and was not there.  A path with a slash at the end is made as well, and refused. */
    method Mkdir(path: string) returns (r: MkdirAnswer, ghost made: nat)
      requires Shape(t)
      modifies this
      ensures MkdirDone(old(t), t, path, r, made)
    {
      ghost var ss, done := Segments(path), 0;
      var parent, cursor := 0, 0;
      AllLeft(path);
      MakingBegins(t, ss);
      while true
        invariant Making(old(t), t, ss, done, parent) && MadeProper(old(t), t, ss, done)
        invariant Left(path, cursor, ss, done)
        invariant cursor < |path| || path == ""
        decreases |path| - cursor
      {
        var segment := NextComponent(path, cursor, NAME_MAX, ss, done);
        if !segment.Found? {
          MkdirFails(old(t), t, path, cursor, done, parent);
          return if segment.None? then Refused else Stopped, done;
        }
        var i, created := MakeNext(parent, segment.text, old(t), ss, done);
        done := done + 1;
        if segment.next == |path| {
          NoneLeft(path, ss, done);
          assert ss[..done] == ss;
          MkdirEnds(old(t), t, path, i, created);
          return if created then Made else Refused, done;
        }
        parent, cursor := i, segment.next;
      }
    }

    /** The step of vfs_resolve for one component. */
    method Enter(base: nat, segment: string) returns (next: int)
      requires Valid() && base < |t|
      ensures if next == NONE then forall k :: !Goes(t, base, segment, k)
              else 0 <= next < |t| && Goes(t, base, segment, next)
    {
      if segment == "." {
        return base;
      }
      if segment == ".." {
        return if t[base].parent != NONE then t[base].parent else base;
      }
      next := FindChild(base, segment);
    }

    /** vfs_resolve */
    method Resolve(cwd: nat, path: string) returns (r: Answer)
      requires Valid() && cwd < |t|
      ensures var from := Base(path, cwd);
        match r
        case At(n) => Walks(t, from, Segments(path), n) && n < |t|
        case Missing => forall n :: !Walks(t, from, Segments(path), n)
        case Panic => exists i :: 0 <= i < |Segments(path)| && |Segments(path)[i]| >= NAME_MAX
    {
      var base := Base(path, cwd);
      ghost var from, ss, done := base, Segments(path), 0;
      if path == "/" {
        assert path[1..] == "";
        return At(0);
      }
      AllLeft(path);
      assert ss[..0] == [];
      var cursor := 0;
      while true
        invariant Left(path, cursor, ss, done)
        invariant base < |t| && Walks(t, from, ss[..done], base)
        decreases |path| - cursor
      {
        var segment := NextComponent(path, cursor, NAME_MAX, ss, done);
        if segment.None? {
          break;
        }
        if segment.TooLong? {
          return Panic;
        }
        var next := Enter(base, segment.text);
        if next == NONE {
          DeadEnd(t, from, ss, done, base);
          return Missing;
        }
        WalksSnoc(t, from, ss[..done], ss[done], base, next);
        assert ss[..done] + [ss[done]] == ss[..done + 1];
        base, cursor, done := next, segment.next, done + 1;
      }
      assert ss[..done] == ss;
      r := At(base);
    }

    /** build_path into a buffer of `size` characters: the path, cut off where the buffer ends. */
    method BuildPath(n: nat, size: nat) returns (buffer: string)
      requires Valid() && n < |t| && size > 1
      ensures buffer == Cut(Join(Names(t, n)), size - 1)
      decreases n
    {
      if t[n].parent == NONE {
        return "/";
      }
      buffer := BuildPath(t[n].parent, size);
      buffer := AddName(buffer, t[n].name, size, Names(t, t[n].parent));
    }

    /** vfs_path followed by vfs_resolve: the node itself, exactly when its path fits the buffer. */
    method PathAndBack(n: nat, cwd: nat) returns (path: string, r: Answer)
      requires Valid() && n < |t| && cwd < |t|
      ensures |Join(Names(t, n))| < PATH_MAX ==> path == Join(Names(t, n))
      ensures r == At(n) <==> |Join(Names(t, n))| < PATH_MAX
    {
      path := BuildPath(n, PATH_MAX);
      r := Resolve(cwd, path);
      BackToNode(t, n, path, r);
    }
  }

  /** oh_normalize_path and then vfs_resolve: the node the path itself leads to. */
  method NormalizeAndResolve(fs: FileSystem, path: string, cwd: nat, nameSize: nat, pathMax: nat, size: nat)
    returns (ok: bool, direct: Answer, normal: Answer)
    requires fs.Valid() && cwd < |fs.t| && path != "" && path[0] == '/' && size > 1 && nameSize > 0
    ensures ok <==> |path| < pathMax && Fits(Segments(path), nameSize, size)
    ensures ok && direct.At? ==> normal == direct
  {
    direct := fs.Resolve(cwd, path);
    normal := direct;
    var output;
    ok, output := Normalize(path, nameSize, pathMax, size);
    if ok {
      normal := fs.Resolve(cwd, output);
      if direct.At? {
        NormalLeads(fs.t, path, direct.node);
        ReduceLeads(fs.t, Segments(path), direct.node);
        LeadNames(fs.t, Reduce(Segments(path)), direct.node);
        SegmentsJoin(Reduce(Segments(path)));
        assert Segments(output) == Names(fs.t, direct.node) && Base(output, cwd) == 0 && Base(path, cwd) == 0;
        assert Named(fs.t) && Walks(fs.t, 0, Segments(output), direct.node);
        if normal.At? {
          WalksUnique(fs.t, 0, Segments(output), normal.node, direct.node);
        }
      }
    }
  }

  /** mkdir "/." makes a node called ".", which no path leads to. */
  method DotDirectory() returns (fs: FileSystem)
    ensures Shape(fs.t) && !fs.Valid()
  {
    fs := new FileSystem();
    assert "/."[1..] == "." && "."[1..] == "" && Word(".") == "." && Segments("/.") == ["."];
    var r, made := fs.Mkdir("/.");
    assert !IsProper(Segments("/.")[..made][0]);
  }

  /** Four names of 63 characters: the path has 256, and printing it loses its end. */
  method TooDeep() returns (fs: FileSystem, n: nat, r: Answer)
    ensures fs.Valid() && n < |fs.t| && |Join(Names(fs.t, n))| == PATH_MAX && r != At(n)
  {
    fs := new FileSystem();
    n := 0;
    var name := seq(NAME_MAX - 1, _ => 'a');
    for k := 0 to 4
      invariant fs.Valid() && fresh(fs) && n < |fs.t| && Size(Names(fs.t, n)) == NAME_MAX * k && (n == 0 <==> k == 0)
    {
      ghost var t, ss := fs.t, Names(fs.t, n);
      var i := fs.FindOrCreate(n, name);
      NamesKept(t, fs.t, n);
      assert (ss + [name])[..|ss|] == ss;
      n := i;
    }
    JoinSize(Names(fs.t, n));
    var path;
    path, r := fs.PathAndBack(n, 0);
  }

  /** The end of build_path: a slash and the name, as far as there is room. */
  method AddName(buffer: string, name: string, size: nat, ghost ss: seq<string>) returns (r: string)
    requires size > 1 && AllNames(ss) && IsName(name) && buffer == Cut(Join(ss), size - 1)
    ensures r == Cut(Join(ss + [name]), size - 1)
  {
    r := buffer;
    JoinGrows(ss, name);
    if |r| + 1 < size {
      if |r| > 1 || r[0] != '/' {
        r := r + "/";
      }
      r := AddText(r, name, size - 1);
    } else {
      CutCut(Join(ss), if ss == [] then name else "/" + name, size - 1);
      assert ss != [] ==> Join(ss + [name]) == Join(ss) + ("/" + name);
    }
  }

  method AddText(b: string, name: string, limit: nat) returns (r: string)
    requires |b| <= limit
    ensures r == Cut(b + name, limit)
  {
    r := b;
    var i := 0;
    while |r| < limit && i < |name|
      invariant 0 <= i <= |name| && |r| <= limit && |r| == |b| + i && r == (b + name)[..|b| + i]
    {
      r := r + [name[i]];
      i := i + 1;
    }
  }

  /** What does not fit leaves no trace. */
  lemma {:induction false} CutCut(a: string, s: string, n: nat)
    requires |Cut(a, n)| == n
    ensures Cut(a + s, n) == Cut(a, n)
  {
    assert (a + s)[..n] == a[..n];
  }

  /** Where a path starts. */
  function Base(path: string, cwd: nat): nat { if path != "" && path[0] == '/' then 0 else cwd }

  /** The first characters of a string. */
  function Cut(s: string, n: nat): string { if |s| <= n then s else s[..n] }

  lemma {:induction false} JoinGrows(ss: seq<string>, name: string)
    requires AllNames(ss)
    ensures Join(ss + [name]) == (if ss == [] then "/" else Join(ss) + "/") + name
    ensures ss != [] ==> |Join(ss)| > 1
  {
    assert (ss + [name])[..|ss|] == ss;
    if ss != [] {
      JoinLong(ss);
    }
  }

  /** A name that is not there ends the walk. */
  lemma {:induction false} DeadEnd(t: seq<Node>, from: int, ss: seq<string>, k: nat, m: int)
    requires Tree(t) && k < |ss| && Walks(t, from, ss[..k], m) && forall n :: !Goes(t, m, ss[k], n)
    ensures forall n :: !Walks(t, from, ss, n)
  {
    forall n
      ensures !Walks(t, from, ss, n)
    {
      if Walks(t, from, ss, n) {
        var mid := WalksPrefix(t, from, ss, k, n);
        WalksUnique(t, from, ss[..k], m, mid);
        assert false;
      }
    }
  }

  /** A path that was cut off leads elsewhere or nowhere: it is too short for the node. */
  lemma {:induction false} BackToNode(t: seq<Node>, n: nat, path: string, r: Answer)
    requires Tree(t) && n < |t| && path == Cut(Join(Names(t, n)), PATH_MAX - 1)
    requires match r
      case At(m) => Walks(t, 0, Segments(path), m) && m < |t|
      case Missing => forall m :: !Walks(t, 0, Segments(path), m)
      case Panic => exists i :: 0 <= i < |Segments(path)| && |Segments(path)[i]| >= NAME_MAX
    ensures r == At(n) <==> |Join(Names(t, n))| < PATH_MAX
  {
    var ss := Names(t, n);
    if |Join(ss)| < PATH_MAX {
      SegmentsJoin(ss);
      NamesLead(t, n);
      if r.At? {
        WalksUnique(t, 0, ss, r.node, n);
      }
    } else if r == At(n) {
      ReduceLeads(t, Segments(path), n);
      LeadNames(t, Reduce(Segments(path)), n);
      NormalShorter(path);
      assert false;
    }
  }
}

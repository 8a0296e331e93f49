/** One painting pass of the XNX compositor (user/xnx/compositor.c): back to front, each surface
    clipped to the screen.  pixman is taken as "paint this rectangle". */
module Painting {
  import opened Desktop

  /** One call of pixman_image_composite32: from (sx, sy) of the surface to (dx, dy) of the screen. */
  datatype Paint = Paint(id: nat, sx: int, sy: int, dx: int, dy: int, width: int, height: int)

  /** The surface extends over this point, and the point is on the screen. */
  predicate Shows(s: Surface, px: int, py: int, w: nat, h: nat) {
    s.x <= px < s.x + s.width && s.y <= py < s.y + s.height && 0 <= px < w && 0 <= py < h
  }

  predicate Covers(p: Paint, px: int, py: int) { p.dx <= px < p.dx + p.width && p.dy <= py < p.dy + p.height }

  /** The call paints exactly the part of s that is on the screen, each point with its own pixel. */
  ghost predicate Clips(p: Paint, s: Surface, w: nat, h: nat) {
    && p.id == s.id && p.dx - p.sx == s.x && p.dy - p.sy == s.y && p.sx >= 0 && p.sy >= 0
    && forall px, py :: Covers(p, px, py) <==> Shows(s, px, py, w, h)
  }

  ghost predicate OnScreen(s: Surface, w: nat, h: nat) { exists px, py :: Shows(s, px, py, w, h) }

  /** int arithmetic wraps at 2^32; (unsigned) reads the same bits. */
  function Wrap(x: int): int {
    if x >= 0x8000_0000 then x - 0x1_0000_0000 else if x < -0x8000_0000 then x + 0x1_0000_0000 else x
  }

  function Unsigned(x: int): int { if x < 0 then x + 0x1_0000_0000 else x }

  /** The clipping in composite_surfaces, in 32-bit arithmetic. */
  method Clip(s: Surface, w: nat, h: nat) returns (drawn: bool, p: Paint)
    requires Sized(s) && Side(w) && Side(h)
    ensures drawn <==> OnScreen(s, w, h)
    ensures drawn ==> Clips(p, s, w, h)
  {
    var dx, dy, sx, sy := s.x, s.y, 0, 0;
    p := Paint(s.id, 0, 0, 0, 0, 0, 0);
    if s.width == 0 || s.height == 0 {
      return false, p;
    }
    var width, height: int := s.width, s.height;
    if dx < 0 {
      sx, width, dx := Wrap(-dx), Wrap(width + dx), 0;
    }
    if dy < 0 {
      sy, height, dy := Wrap(-dy), Wrap(height + dy), 0;
    }
    if dx >= w || dy >= h || sx >= s.width || sy >= s.height {
      return false, p;
    }
    if Wrap(dx + width) > w {
      width := Wrap(w - dx);
    }
    if Wrap(dy + height) > h {
      height := Wrap(h - dy);
    }
    if Unsigned(Wrap(sx + width)) > s.width {
      width := Wrap(s.width - sx);
    }
    if Unsigned(Wrap(sy + height)) > s.height {
      height := Wrap(s.height - sy);
    }
    drawn := width > 0 && height > 0;
    p := Paint(s.id, sx, sy, dx, dy, width, height);
    assert drawn ==> Shows(s, dx, dy, w, h);
  }

  ghost predicate Ascending(order: seq<Surface>) { forall i, j :: 0 <= i < j < |order| ==> order[i].z < order[j].z }

  /** The visible surface of the least z from z on, or |ss|. */
  method Lowest(ss: seq<Surface>, z: int) returns (next: nat)
    ensures next <= |ss| && (next < |ss| ==> ss[next].visible && ss[next].z >= z)
    ensures forall k :: 0 <= k < |ss| && ss[k].visible && ss[k].z >= z ==> next < |ss| && ss[next].z <= ss[k].z
  {
    next := |ss|;
    var i := 0;
    while i < |ss|
      invariant 0 <= i <= |ss| && next <= |ss| && (next < |ss| ==> ss[next].visible && ss[next].z >= z)
      invariant forall k :: 0 <= k < i && ss[k].visible && ss[k].z >= z ==> next < |ss| && ss[next].z <= ss[k].z
    {
      if ss[i].visible && ss[i].z >= z {
        if next == |ss| || ss[i].z < ss[next].z {
          next := i;
        }
      }
      i := i + 1;
    }
  }

  /** What has been painted when all surfaces below z are done. */
  ghost predicate PaintedBelow(ss: seq<Surface>, z: int, w: nat, h: nat, paints: seq<Paint>, order: seq<Surface>) {
    && |paints| == |order| && Ascending(order)
    && (forall s :: s in order <==> s in ss && s.visible && s.z < z && OnScreen(s, w, h))
    && forall i :: 0 <= i < |order| ==> Clips(paints[i], order[i], w, h)
  }

  /** composite_surfaces: every visible surface that is on the screen is painted once, in the order of z. */
  method Composite(ss: seq<Surface>, ghost nextZ: int, w: nat, h: nat)
    returns (paints: seq<Paint>, ghost order: seq<Surface>)
    requires Distinct(ss) && 0 <= nextZ && Side(w) && Side(h) && forall s :: s in ss ==> 0 <= s.z < nextZ && Sized(s)
    ensures PaintedBelow(ss, nextZ, w, h, paints, order)
    ensures forall s :: s in ss && s.visible && OnScreen(s, w, h) ==> PaintedOnce(paints, s, w, h)
  {
    paints, order := [], [];
    var z := 0;
    while true
      invariant z <= nextZ && PaintedBelow(ss, z, w, h, paints, order)
      decreases nextZ - z
    {
      var next := Lowest(ss, z);
      if next == |ss| {
        break;
      }
      var s := ss[next];
      assert s in ss;
      var drawn, p := Clip(s, w, h);
      PaintNext(ss, z, w, h, paints, order, s);
      if drawn {
        paints, order := paints + [p], order + [s];
      }
      z := s.z + 1;
    }
    assert forall s :: s in ss && s.visible ==> s.z < z;
    forall s | s in ss && s.visible && OnScreen(s, w, h)
      ensures PaintedOnce(paints, s, w, h)
    {
      OnceEach(ss, nextZ, w, h, paints, order, s);
    }
  }

  ghost predicate PaintedOnce(paints: seq<Paint>, s: Surface, w: nat, h: nat) {
    exists i ::
      && 0 <= i < |paints| && Clips(paints[i], s, w, h)
      && forall j :: 0 <= j < |paints| && j != i ==> paints[j].id != s.id
  }

  lemma {:induction false} OnceEach(ss: seq<Surface>, z: int, w: nat, h: nat, paints: seq<Paint>, order: seq<Surface>,
                                    s: Surface)
    requires PaintedBelow(ss, z, w, h, paints, order) && Distinct(ss) && s in order
    ensures PaintedOnce(paints, s, w, h)
  {
    var i :| 0 <= i < |order| && order[i] == s;
    assert Clips(paints[i], order[i], w, h);
    forall j | 0 <= j < |paints| && j != i
      ensures paints[j].id != s.id
    {
      assert Clips(paints[j], order[j], w, h) && order[j] in order;
      OneId(ss, s, order[j]);
    }
  }

  lemma {:induction false} OneId(ss: seq<Surface>, s: Surface, t: Surface)
    requires Distinct(ss) && s in ss && t in ss && s.z != t.z
    ensures s.id != t.id
  {
    var i :| 0 <= i < |ss| && ss[i] == s;
    var j :| 0 <= j < |ss| && ss[j] == t;
  }

  /** Nothing lies between z and the lowest surface from z on. */
  lemma {:induction false} PaintNext(ss: seq<Surface>, z: int, w: nat, h: nat, paints: seq<Paint>, order: seq<Surface>,
                                     s: Surface)
    requires PaintedBelow(ss, z, w, h, paints, order) && Distinct(ss) && s in ss && s.visible && s.z >= z
    requires forall t :: t in ss && t.visible && t.z >= z ==> s.z <= t.z
    ensures var order' := if OnScreen(s, w, h) then order + [s] else order;
      Ascending(order') && forall t :: t in order' <==> t in ss && t.visible && t.z < s.z + 1 && OnScreen(t, w, h)
  {
    assert forall i :: 0 <= i < |order| ==> order[i] in order;
    forall t | t in ss && t.visible && t.z == s.z
      ensures t == s
    {
      var i :| 0 <= i < |ss| && ss[i] == s;
      var j :| 0 <= j < |ss| && ss[j] == t;
    }
  }

  /** The last call that covers a point is that of the topmost visible surface there. */
  lemma {:induction false} TopmostLast(ss: seq<Surface>, nextZ: int, w: nat, h: nat, paints: seq<Paint>,
                                       order: seq<Surface>, px: int, py: int, k: nat)
    requires PaintedBelow(ss, nextZ, w, h, paints, order) && k < |paints| && Covers(paints[k], px, py)
    requires forall j :: k < j < |paints| ==> !Covers(paints[j], px, py)
    ensures forall s :: s in ss && s.visible && s.z < nextZ && Shows(s, px, py, w, h) ==> s.z <= order[k].z
    ensures order[k] in ss && Shows(order[k], px, py, w, h)
  {
    assert order[k] in order;
    forall s | s in ss && s.visible && s.z < nextZ && Shows(s, px, py, w, h)
      ensures s.z <= order[k].z
    {
      assert OnScreen(s, w, h);
      var j :| 0 <= j < |order| && order[j] == s;
      assert Clips(paints[j], order[j], w, h);
      assert Covers(paints[j], px, py);
    }
  }
}

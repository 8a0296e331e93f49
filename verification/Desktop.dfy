/** The tables of the XNX compositor (user/xnx/compositor.c) as values: surfaces, the clients that
    own them, and the focus. */
module Desktop {
  datatype Surface = Surface(id: nat, fd: int, x: int, y: int, width: nat, height: nat, z: int, visible: bool)
  datatype Client = Client(fd: int, ids: seq<nat>)

  /** surfaces, clients, focused_surface_id, next_surface_id and next_z_order. */
  datatype Desk = Desk(surfaces: seq<Surface>, clients: seq<Client>, focused: nat, nextId: nat, nextZ: int)

  /** The last element takes the place of the one removed. */
  function SwapRemove<T>(s: seq<T>, i: nat): (r: seq<T>)
    requires i < |s|
    ensures |r| == |s| - 1
  {
    s[i := s[|s| - 1]][..|s| - 1]
  }

  ghost predicate Distinct(ss: seq<Surface>) {
    forall i, j :: 0 <= i < j < |ss| ==> ss[i].id != ss[j].id && ss[i].z != ss[j].z
  }

  /** The numbers of an int32_t. */
  predicate Int32(x: int) { -0x8000_0000 <= x < 0x8000_0000 }

  /** Sides for which there can be pixels: a row or column of 2^30 of them fills 4 GiB. */
  predicate Side(n: nat) { n < 0x4000_0000 }

  predicate Sized(s: Surface) { Int32(s.x) && Int32(s.y) && Side(s.width) && Side(s.height) }

  ghost predicate Bounded(ss: seq<Surface>, nextId: nat, nextZ: int) {
    0 < nextZ && forall s :: s in ss ==> 0 < s.id <= nextId && 0 < s.z < nextZ && s.visible && Sized(s)
  }

  /** The focused surface is the one on top; 0 stands for none. */
  ghost predicate Focus(ss: seq<Surface>, focused: nat) {
    if ss == [] then focused == 0 else exists t :: t in ss && t.id == focused && OnTop(ss, t)
  }

  ghost predicate OnTop(ss: seq<Surface>, t: Surface) { forall s :: s in ss ==> s.z <= t.z }

  ghost predicate NoTwice(ids: seq<nat>) { forall i, j :: 0 <= i < j < |ids| ==> ids[i] != ids[j] }

  ghost predicate Connected(cs: seq<Client>) {
    && (forall i, j :: 0 <= i < j < |cs| ==> cs[i].fd != cs[j].fd)
    && forall c :: c in cs ==> NoTwice(c.ids)
  }

  ghost predicate HasSurface(ss: seq<Surface>, id: nat, fd: int) { exists s :: s in ss && s.id == id && s.fd == fd }
  ghost predicate HasOwner(cs: seq<Client>, s: Surface) { exists c :: c in cs && c.fd == s.fd && s.id in c.ids }

  /** The clients list their own surfaces, and all of them. */
  ghost predicate Owned(ss: seq<Surface>, cs: seq<Client>) { forall s :: s in ss ==> HasOwner(cs, s) }
  ghost predicate Listed(ss: seq<Surface>, cs: seq<Client>) {
    forall c :: c in cs ==> Lists(ss, c)
  }
  ghost predicate Lists(ss: seq<Surface>, c: Client) { forall id :: id in c.ids ==> HasSurface(ss, id, c.fd) }

  ghost predicate Valid(d: Desk) {
    && Distinct(d.surfaces) && Bounded(d.surfaces, d.nextId, d.nextZ) && Focus(d.surfaces, d.focused)
    && Connected(d.clients) && Owned(d.surfaces, d.clients) && Listed(d.surfaces, d.clients)
  }

  /** The k-th entry in the list of client c is id. */
  predicate ListedAt(cs: seq<Client>, c: nat, k: nat, id: nat) {
    c < |cs| && k < |cs[c].ids| && cs[c].ids[k] == id
  }

  /** In words: every surface is listed once, by the client it belongs to and by no other. */
  lemma {:induction false} ListedOnce(d: Desk, s: Surface)
    requires Valid(d) && s in d.surfaces
    ensures exists c: nat, k: nat :: ListedAt(d.clients, c, k, s.id) && d.clients[c].fd == s.fd
    ensures forall c: nat, k: nat, c': nat, k': nat ::
      ListedAt(d.clients, c, k, s.id) && ListedAt(d.clients, c', k', s.id) ==> c == c' && k == k'
  {
    assert HasOwner(d.clients, s);
    var o :| o in d.clients && o.fd == s.fd && s.id in o.ids;
    var c: nat :| c < |d.clients| && d.clients[c] == o;
    var k: nat :| k < |o.ids| && o.ids[k] == s.id;
    assert ListedAt(d.clients, c, k, s.id);
    forall c: nat, k: nat, c': nat, k': nat | ListedAt(d.clients, c, k, s.id) && ListedAt(d.clients, c', k', s.id)
      ensures c == c' && k == k'
    {
      OwnerOf(d, s, d.clients[c]);
      OwnerOf(d, s, d.clients[c']);
    }
  }

  /** Whoever lists the id of a surface is its owner. */
  lemma {:induction false} OwnerOf(d: Desk, s: Surface, c: Client)
    requires Valid(d) && s in d.surfaces && c in d.clients && s.id in c.ids
    ensures c.fd == s.fd
  {
    assert Lists(d.surfaces, c);
    assert HasSurface(d.surfaces, s.id, c.fd);
    var t :| t in d.surfaces && t.id == s.id && t.fd == c.fd;
    SameId(d.surfaces, s, t);
  }

  lemma {:induction false} SameId(ss: seq<Surface>, s: Surface, t: Surface)
    requires Distinct(ss) && s in ss && t in ss && s.id == t.id
    ensures s == t
  {
    var i :| 0 <= i < |ss| && ss[i] == s;
    var j :| 0 <= j < |ss| && ss[j] == t;
  }

  // ----- removing a surface -----

  lemma {:induction false} SwapRemoves(ss: seq<Surface>, i: nat)
    requires Distinct(ss) && i < |ss|
    ensures var r := SwapRemove(ss, i); Distinct(r) && forall s :: s in r <==> s in ss && s.id != ss[i].id
  {
    var r := SwapRemove(ss, i);
    forall s | s in ss && s.id != ss[i].id
      ensures s in r
    {
      var k :| 0 <= k < |ss| && ss[k] == s;
      if k == |ss| - 1 {
        assert r[i] == s;
      } else {
        assert r[k] == s;
      }
    }
  }

  /** Just the surface `id` has gone, and what is on top now has the focus. */
  ghost predicate Dropped(ss: seq<Surface>, id: nat, ss': seq<Surface>, focused': nat) {
    Distinct(ss') && Focus(ss', focused') && forall s :: s in ss' <==> s in ss && s.id != id
  }

  lemma {:induction false} FocusStays(ss: seq<Surface>, ss': seq<Surface>, focused: nat, id: nat)
    requires Distinct(ss) && Focus(ss, focused) && id != focused && ss' != []
    requires forall s :: s in ss' <==> s in ss && s.id != id
    ensures Focus(ss', focused)
  {
    assert ss'[0] in ss';
    var t :| t in ss && t.id == focused && OnTop(ss, t);
    assert OnTop(ss', t);
  }

  /** No one else lists a surface of client c. */
  lemma {:induction false} OnlyOwner(d: Desk, c: nat, id: nat, k: nat)
    requires Valid(d) && c < |d.clients| && k < |d.clients| && HasSurface(d.surfaces, id, d.clients[c].fd)
    requires id in d.clients[k].ids
    ensures k == c
  {
    var s :| s in d.surfaces && s.id == id && s.fd == d.clients[c].fd;
    OwnerOf(d, s, d.clients[k]);
  }

  /** Those that lose nothing go on listing their own. */
  lemma {:induction false} StillLists(ss: seq<Surface>, ss': seq<Surface>, id: nat, c: Client, c': Client)
    requires Lists(ss, c) && c'.fd == c.fd && id !in c'.ids && forall k :: k in c'.ids ==> k in c.ids
    requires forall s :: s in ss && s.id != id ==> s in ss'
    ensures Lists(ss', c')
  {
    forall i | i in c'.ids
      ensures HasSurface(ss', i, c'.fd)
    {
      assert HasSurface(ss, i, c.fd);
    }
  }

  lemma {:induction false} StillOwned(cs: seq<Client>, cs': seq<Client>, s: Surface)
    requires HasOwner(cs, s) && |cs'| == |cs|
    requires forall k :: 0 <= k < |cs| ==> cs'[k].fd == cs[k].fd && (s.id in cs[k].ids ==> s.id in cs'[k].ids)
    ensures HasOwner(cs', s)
  {
    var p :| p in cs && p.fd == s.fd && s.id in p.ids;
    var k :| 0 <= k < |cs| && cs[k] == p;
    assert cs'[k] in cs';
  }

  /** A surface leaves, and the owner's list with it. */
  lemma {:induction false} DestroyKeeps(d: Desk, c: nat, id: nat, d': Desk, ids': seq<nat>)
    requires Valid(d) && c < |d.clients| && HasSurface(d.surfaces, id, d.clients[c].fd)
    requires Dropped(d.surfaces, id, d'.surfaces, d'.focused)
    requires NoTwice(ids') && forall k :: k in ids' <==> k in d.clients[c].ids && k != id
    requires d'.clients == d.clients[c := Client(d.clients[c].fd, ids')] && d'.nextId == d.nextId && d'.nextZ == d.nextZ
    ensures Valid(d')
  {
    forall s | s in d'.surfaces
      ensures HasOwner(d'.clients, s)
    {
      assert HasOwner(d.clients, s);
      StillOwned(d.clients, d'.clients, s);
    }
    forall p | p in d'.clients
      ensures Lists(d'.surfaces, p)
    {
      var k :| 0 <= k < |d'.clients| && d'.clients[k] == p;
      if id in d.clients[k].ids {
        OnlyOwner(d, c, id, k);
      }
      StillLists(d.surfaces, d'.surfaces, id, d.clients[k], p);
    }
  }

  // ----- the other changes -----

  /** A new surface on top, listed last by its owner. */
  function Created(d: Desk, c: nat, width: nat, height: nat): Desk
    requires c < |d.clients|
  {
    var id, o := d.nextId + 1, d.clients[c];
    Desk(d.surfaces + [Surface(id, o.fd, 0, 0, width, height, d.nextZ, true)],
         d.clients[c := Client(o.fd, o.ids + [id])],
         id, id, d.nextZ + 1)
  }

  /** One more surface, with the next id and on top. */
  lemma {:induction false} SurfaceAdded(ss: seq<Surface>, nextId: nat, nextZ: int, n: Surface)
    requires Distinct(ss) && Bounded(ss, nextId, nextZ) && n.id == nextId + 1 && n.z == nextZ && n.visible && Sized(n)
    ensures Distinct(ss + [n]) && Bounded(ss + [n], nextId + 1, nextZ + 1) && Focus(ss + [n], n.id)
  {
    var ss' := ss + [n];
    assert ss'[|ss|] == n;
    assert forall i :: 0 <= i < |ss| ==> ss'[i] == ss[i] && ss[i] in ss;
    assert n in ss' && OnTop(ss', n);
  }

  lemma {:induction false} CreateKeeps(d: Desk, c: nat, width: nat, height: nat)
    requires Valid(d) && c < |d.clients| && Side(width) && Side(height)
    ensures Valid(Created(d, c, width, height))
  {
    var d' := Created(d, c, width, height);
    var n := d'.surfaces[|d.surfaces|];
    SurfaceAdded(d.surfaces, d.nextId, d.nextZ, n);
    NewId(d, c);
    CreateOwned(d, c, n, d');
  }

  lemma {:induction false} CreateOwned(d: Desk, c: nat, n: Surface, d': Desk)
    requires Valid(d) && c < |d.clients| && n.fd == d.clients[c].fd && NoTwice(d.clients[c].ids + [n.id])
    requires d'.surfaces == d.surfaces + [n] && d'.clients == d.clients[c := Client(n.fd, d.clients[c].ids + [n.id])]
    ensures Connected(d'.clients) && Owned(d'.surfaces, d'.clients) && Listed(d'.surfaces, d'.clients)
  {
    assert d'.clients[c] in d'.clients;
    forall s | s in d.surfaces
      ensures HasOwner(d'.clients, s)
    {
      assert HasOwner(d.clients, s);
      StillOwned(d.clients, d'.clients, s);
    }
    assert HasOwner(d'.clients, n);
    forall p | p in d'.clients
      ensures Lists(d'.surfaces, p) && NoTwice(p.ids)
    {
      var k :| 0 <= k < |d'.clients| && d'.clients[k] == p;
      assert d.clients[k] in d.clients;
      CreatedLists(d.surfaces, n, d.clients[k], p);
    }
  }

  /** The next id is on no list. */
  lemma {:induction false} NewId(d: Desk, c: nat)
    requires Valid(d) && c < |d.clients|
    ensures d.nextId + 1 !in d.clients[c].ids && NoTwice(d.clients[c].ids + [d.nextId + 1])
  {
    assert d.clients[c] in d.clients;
    assert Lists(d.surfaces, d.clients[c]);
    assert forall id :: id in d.clients[c].ids ==> id <= d.nextId by {
      forall id | id in d.clients[c].ids
        ensures id <= d.nextId
      {
        assert HasSurface(d.surfaces, id, d.clients[c].fd);
      }
    }
  }

  lemma {:induction false} CreatedLists(ss: seq<Surface>, n: Surface, c: Client, c': Client)
    requires Lists(ss, c) && (c' == c || (c' == Client(c.fd, c.ids + [n.id]) && n.fd == c.fd))
    ensures Lists(ss + [n], c')
  {
    forall i | i in c'.ids
      ensures HasSurface(ss + [n], i, c'.fd)
    {
      if i in c.ids {
        assert HasSurface(ss, i, c.fd);
        var s :| s in ss && s.id == i && s.fd == c.fd;
        assert s in ss + [n];
      } else {
        assert n in ss + [n];
      }
    }
  }

  /** A surface changes but for its identity. */
  ghost predicate SameSurface(s: Surface, t: Surface) { t.id == s.id && t.fd == s.fd && t.visible == s.visible }

  lemma {:induction false} ChangeKeeps(d: Desk, i: nat, t: Surface, d': Desk)
    requires Valid(d) && i < |d.surfaces| && SameSurface(d.surfaces[i], t) && Sized(t)
    requires d' == Desk(d.surfaces[i := t], d.clients, d'.focused, d.nextId, d'.nextZ)
    requires || (t.z == d.surfaces[i].z && d'.focused == d.focused && d'.nextZ == d.nextZ)
             || (t.z == d.nextZ && d'.focused == t.id && d'.nextZ == d.nextZ + 1)
    ensures Valid(d')
  {
    var ss, ss' := d.surfaces, d'.surfaces;
    ChangeOwned(ss, ss', d.clients);
    ChangeOrder(d, i, t, d');
  }

  lemma {:induction false} ChangeOrder(d: Desk, i: nat, t: Surface, d': Desk)
    requires Valid(d) && i < |d.surfaces| && SameSurface(d.surfaces[i], t) && Sized(t)
    requires d'.surfaces == d.surfaces[i := t]
    requires || (t.z == d.surfaces[i].z && d'.focused == d.focused && d'.nextZ == d.nextZ)
             || (t.z == d.nextZ && d'.focused == t.id && d'.nextZ == d.nextZ + 1)
    ensures Distinct(d'.surfaces) && Bounded(d'.surfaces, d.nextId, d'.nextZ) && Focus(d'.surfaces, d'.focused)
  {
    if t.z == d.surfaces[i].z {
      MovedOrder(d.surfaces, i, t, d.focused, d.nextId, d.nextZ);
    } else {
      RaisedOrder(d.surfaces, i, t, d.nextId, d.nextZ);
    }
  }

  /** A surface stays where it is in the stack. */
  lemma {:induction false} MovedOrder(ss: seq<Surface>, i: nat, t: Surface, focused: nat, nextId: nat, nextZ: int)
    requires Distinct(ss) && Bounded(ss, nextId, nextZ) && Focus(ss, focused)
    requires i < |ss| && SameSurface(ss[i], t) && Sized(t) && t.z == ss[i].z
    ensures Distinct(ss[i := t]) && Bounded(ss[i := t], nextId, nextZ) && Focus(ss[i := t], focused)
  {
    assert ss[i] in ss;
    FocusSame(ss, ss[i := t], focused);
  }

  /** A surface comes to the top. */
  lemma {:induction false} RaisedOrder(ss: seq<Surface>, i: nat, t: Surface, nextId: nat, nextZ: int)
    requires Distinct(ss) && Bounded(ss, nextId, nextZ)
    requires i < |ss| && SameSurface(ss[i], t) && Sized(t) && t.z == nextZ
    ensures Distinct(ss[i := t]) && Bounded(ss[i := t], nextId, nextZ + 1) && Focus(ss[i := t], t.id)
  {
    var ss' := ss[i := t];
    assert forall k :: 0 <= k < |ss| ==> ss[k] in ss;
    assert ss'[i] in ss' && OnTop(ss', t);
  }

  lemma {:induction false} ChangeOwned(ss: seq<Surface>, ss': seq<Surface>, cs: seq<Client>)
    requires Owned(ss, cs) && Listed(ss, cs) && |ss'| == |ss|
    requires forall k :: 0 <= k < |ss| ==> SameSurface(ss[k], ss'[k])
    ensures Owned(ss', cs) && Listed(ss', cs)
  {
    forall s | s in ss'
      ensures HasOwner(cs, s)
    {
      var k :| 0 <= k < |ss'| && ss'[k] == s;
      assert ss[k] in ss && HasOwner(cs, ss[k]);
    }
    forall c | c in cs
      ensures Lists(ss', c)
    {
      ChangedLists(ss, ss', c);
    }
  }

  lemma {:induction false} ChangedLists(ss: seq<Surface>, ss': seq<Surface>, c: Client)
    requires Lists(ss, c) && |ss| == |ss'| && forall k :: 0 <= k < |ss| ==> SameSurface(ss[k], ss'[k])
    ensures Lists(ss', c)
  {
    forall id | id in c.ids
      ensures HasSurface(ss', id, c.fd)
    {
      assert HasSurface(ss, id, c.fd);
      var s :| s in ss && s.id == id && s.fd == c.fd;
      var k :| 0 <= k < |ss| && ss[k] == s;
      assert ss'[k] in ss';
    }
  }

  lemma {:induction false} FocusSame(ss: seq<Surface>, ss': seq<Surface>, focused: nat)
    requires Focus(ss, focused) && |ss| == |ss'|
    requires forall k :: 0 <= k < |ss| ==> ss'[k].id == ss[k].id && ss'[k].z == ss[k].z
    ensures Focus(ss', focused)
  {
    if ss != [] {
      var t :| t in ss && t.id == focused && OnTop(ss, t);
      var k :| 0 <= k < |ss| && ss[k] == t;
      forall s | s in ss'
        ensures s.z <= ss'[k].z
      {
        var j :| 0 <= j < |ss'| && ss'[j] == s;
        assert ss[j] in ss;
      }
      assert ss'[k] in ss' && OnTop(ss', ss'[k]);
    }
  }

  /** A client joins with a descriptor of its own. */
  lemma {:induction false} JoinKeeps(d: Desk, fd: int)
    requires Valid(d) && forall c :: c in d.clients ==> c.fd != fd
    ensures Valid(d.(clients := d.clients + [Client(fd, [])]))
  {
    var cs' := d.clients + [Client(fd, [])];
    assert forall i :: 0 <= i < |d.clients| ==> d.clients[i] in d.clients;
    forall s | s in d.surfaces
      ensures HasOwner(cs', s)
    {
      assert HasOwner(d.clients, s);
      var p :| p in d.clients && p.fd == s.fd && s.id in p.ids;
      assert p in cs';
    }
  }

  /** A client goes, and just its surfaces with it. */
  lemma {:induction false} LeaveKeeps(d: Desk, c: nat, d': Desk)
    requires Valid(d) && c < |d.clients| && Distinct(d'.surfaces) && Focus(d'.surfaces, d'.focused)
    requires forall s :: s in d'.surfaces <==> s in d.surfaces && s.id !in d.clients[c].ids
    requires d'.clients == SwapRemove(d.clients, c) && d'.nextId == d.nextId && d'.nextZ == d.nextZ
    ensures Valid(d') && forall s :: s in d'.surfaces <==> s in d.surfaces && s.fd != d.clients[c].fd
  {
    Remaining(d.clients, c);
    forall s | s in d.surfaces ensures s.id in d.clients[c].ids <==> s.fd == d.clients[c].fd {
      OwnListed(d, c, s);
    }
    forall s | s in d'.surfaces ensures HasOwner(d'.clients, s) {
      OwnerStays(d, c, d'.clients, s);
    }
    forall p | p in d'.clients ensures Lists(d'.surfaces, p) {
      RestLists(d, c, d'.surfaces, p);
    }
  }

  /** A client lists exactly its own surfaces. */
  lemma {:induction false} OwnListed(d: Desk, c: nat, s: Surface)
    requires Valid(d) && c < |d.clients| && s in d.surfaces
    ensures s.id in d.clients[c].ids <==> s.fd == d.clients[c].fd
  {
    assert HasOwner(d.clients, s);
    var p :| p in d.clients && p.fd == s.fd && s.id in p.ids;
    if s.id in d.clients[c].ids {
      OwnerOf(d, s, d.clients[c]);
    }
    if s.fd == d.clients[c].fd {
      SameClient(d.clients, p, d.clients[c]);
    }
  }

  lemma {:induction false} SameClient(cs: seq<Client>, p: Client, o: Client)
    requires Connected(cs) && p in cs && o in cs && p.fd == o.fd
    ensures p == o
  {
    var i :| 0 <= i < |cs| && cs[i] == p;
    var j :| 0 <= j < |cs| && cs[j] == o;
  }

  lemma {:induction false} OwnerStays(d: Desk, c: nat, cs': seq<Client>, s: Surface)
    requires Valid(d) && c < |d.clients| && s in d.surfaces && s.fd != d.clients[c].fd
    requires forall p :: p in d.clients && p.fd != d.clients[c].fd ==> p in cs'
    ensures HasOwner(cs', s)
  {
    assert HasOwner(d.clients, s);
    var p :| p in d.clients && p.fd == s.fd && s.id in p.ids;
    assert p in cs';
  }

  lemma {:induction false} RestLists(d: Desk, c: nat, ss': seq<Surface>, p: Client)
    requires Valid(d) && c < |d.clients| && p in d.clients && p.fd != d.clients[c].fd
    requires forall s :: s in d.surfaces && s.fd != d.clients[c].fd ==> s in ss'
    ensures Lists(ss', p)
  {
    assert Lists(d.surfaces, p);
    forall i | i in p.ids
      ensures HasSurface(ss', i, p.fd)
    {
      assert HasSurface(d.surfaces, i, p.fd);
    }
  }

  lemma {:induction false} Remaining(cs: seq<Client>, c: nat)
    requires Connected(cs) && c < |cs|
    ensures var r := SwapRemove(cs, c); Connected(r) && forall p :: p in r <==> p in cs && p.fd != cs[c].fd
  {
    var r := SwapRemove(cs, c);
    forall p | p in cs && p.fd != cs[c].fd
      ensures p in r
    {
      var k :| 0 <= k < |cs| && cs[k] == p;
      if k == |cs| - 1 {
        assert r[c] == p;
      } else {
        assert r[k] == p;
      }
    }
  }
}

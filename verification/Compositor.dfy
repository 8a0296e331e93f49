/** The XNX compositor (user/xnx/compositor.c): what each message of a client does to the tables. */
module Compositor {
  import opened Desktop
  import Painting

  const MAX_SURFACES_PER_CLIENT := 16
  const MAX_CLIENTS := 32
  const MAX_SURFACES := 256

  class Server {
    var d: Desk

    ghost predicate Ready()
      reads this
    {
      Valid(d)
    }

    constructor ()
      ensures Ready() && d == Desk([], [], 0, 0, 1)
    {
      d := Desk([], [], 0, 0, 1);
    }

    /** find_surface */
    method FindSurface(id: nat) returns (i: nat)
      ensures i <= |d.surfaces| && (i < |d.surfaces| ==> d.surfaces[i].id == id)
      ensures i == |d.surfaces| ==> forall s :: s in d.surfaces ==> s.id != id
    {
      i := 0;
      while i < |d.surfaces|
        invariant 0 <= i <= |d.surfaces| && forall k :: 0 <= k < i ==> d.surfaces[k].id != id
      {
        if d.surfaces[i].id == id {
          return;
        }
        i := i + 1;
      }
    }

    /** top_visible_surface */
    method TopVisible() returns (top: nat)
      requires forall s :: s in d.surfaces ==> s.visible
      ensures if d.surfaces == [] then top == 0 else top < |d.surfaces| && OnTop(d.surfaces, d.surfaces[top])
    {
      top := |d.surfaces|;
      var i := 0;
      while i < |d.surfaces|
        invariant 0 <= i <= |d.surfaces| && (top == |d.surfaces| <==> i == 0) && top <= |d.surfaces|
        invariant forall k :: 0 <= k < i ==> d.surfaces[k].z <= d.surfaces[top].z
      {
        assert d.surfaces[i] in d.surfaces;
        if d.surfaces[i].visible {
          if top == |d.surfaces| || d.surfaces[i].z > d.surfaces[top].z {
            top := i;
          }
        }
        i := i + 1;
      }
    }

    /** ensure_focus */
    method EnsureFocus()
      requires forall s :: s in d.surfaces ==> s.visible && s.id != 0
      modifies this
      ensures d == old(d).(focused := d.focused)
      ensures if exists s :: s in d.surfaces && s.id == old(d).focused then d.focused == old(d).focused
              else Focus(d.surfaces, d.focused)
    {
      var i := FindSurface(d.focused);
      if i < |d.surfaces| && d.surfaces[i].visible {
        return;
      }
      var top := TopVisible();
      if top < |d.surfaces| {
        assert d.surfaces[top] in d.surfaces;
        d := d.(focused := d.surfaces[top].id);
      } else {
        d := d.(focused := 0);
      }
    }

    /** drop_surface */
    method DropSurface(id: nat)
      requires Distinct(d.surfaces) && Bounded(d.surfaces, d.nextId, d.nextZ) && Focus(d.surfaces, d.focused) && id != 0
      modifies this
      ensures Dropped(old(d).surfaces, id, d.surfaces, d.focused) && Bounded(d.surfaces, d.nextId, d.nextZ)
      ensures d == old(d).(surfaces := d.surfaces, focused := d.focused)
    {
      var i := FindSurface(id);
      if i < |d.surfaces| {
        SwapRemoves(d.surfaces, i);
        d := d.(surfaces := SwapRemove(d.surfaces, i));
      }
      if d.focused == id {
        d := d.(focused := 0);
      } else if d.surfaces != [] {
        FocusStays(old(d).surfaces, d.surfaces, d.focused, id);
      }
      EnsureFocus();
    }

    /** add_client; the kernel hands out descriptors that are not in use. */
    method AddClient(fd: int) returns (ok: bool)
      requires Ready() && forall c :: c in d.clients ==> c.fd != fd
      modifies this
      ensures Ready() && ok == (|old(d).clients| < MAX_CLIENTS)
      ensures d == if ok then old(d).(clients := old(d).clients + [Client(fd, [])]) else old(d)
    {
      ok := |d.clients| < MAX_CLIENTS;
      if ok {
        JoinKeeps(d, fd);
        d := d.(clients := d.clients + [Client(fd, [])]);
      }
    }

    /** create_surface; `image` is whether the pixels could be allocated. */
    method CreateSurface(c: nat, width: nat, height: nat, image: bool) returns (ok: bool, id: nat)
      requires Ready() && c < |d.clients|
      modifies this
      ensures Ready()
      ensures ok <==>
        && |old(d).clients[c].ids| < MAX_SURFACES_PER_CLIENT && |old(d).surfaces| < MAX_SURFACES
        && 0 < width <= 4096 && 0 < height <= 4096 && image
      ensures if ok then d == Created(old(d), c, width, height) && id == d.focused else d == old(d)
    {
      ok, id := false, 0;
      if |d.clients[c].ids| >= MAX_SURFACES_PER_CLIENT || |d.surfaces| >= MAX_SURFACES {
        return;
      }
      if width == 0 || height == 0 || width > 4096 || height > 4096 {
        return;
      }
      if !image {
        return;
      }
      CreateKeeps(d, c, width, height);
      id := d.nextId + 1;
      d := Created(d, c, width, height);
      ok := true;
    }

    /** The position of id in the list of client c. */
    method EntryOf(ids: seq<nat>, id: nat) returns (k: nat)
      ensures k <= |ids| && (k < |ids| ==> ids[k] == id) && (k == |ids| ==> id !in ids)
    {
      k := 0;
      while k < |ids|
        invariant 0 <= k <= |ids| && id !in ids[..k]
      {
        if ids[k] == id {
          return;
        }
        k := k + 1;
      }
    }

    /** XNX_DESTROY_SURFACE */
    method DestroySurface(c: nat, id: nat) returns (ok: bool)
      requires Ready() && c < |d.clients|
      modifies this
      ensures Ready() && ok == HasSurface(old(d).surfaces, id, old(d).clients[c].fd)
      ensures !ok ==> d == old(d)
      ensures ok ==> Without(old(d), d, id)
      ensures ok ==>
        && |d.clients| == |old(d).clients| && d.clients[c].fd == old(d).clients[c].fd
        && d == old(d).(surfaces := d.surfaces, clients := old(d).clients[c := d.clients[c]], focused := d.focused)
      ensures ok ==> forall k :: k in d.clients[c].ids <==> k in old(d).clients[c].ids && k != id
    {
      var i := FindSurface(id);
      if i == |d.surfaces| || d.surfaces[i].fd != d.clients[c].fd {
        NotOwned(d, i, id, d.clients[c].fd);
        return false;
      }
      assert d.surfaces[i] in d.surfaces && d.clients[c] in d.clients;
      var ids := d.clients[c].ids;
      DropSurface(id);
      var k := EntryOf(ids, id);
      if k < |ids| {
        EntryRemoved(ids, k);
        ids := SwapRemove(ids, k);
      }
      d := d.(clients := d.clients[c := Client(d.clients[c].fd, ids)]);
      DestroyKeeps(old(d), c, id, d, ids);
      ok := true;
    }

    /** remove_client */
    method RemoveClient(c: nat)
      requires Ready() && c < |d.clients|
      modifies this
      ensures Ready() && Departed(old(d), c, d) && d.nextId == old(d).nextId && d.nextZ == old(d).nextZ
    {
      var ids := d.clients[c].ids;
      NonZero(d, c);
      var i := 0;
      while i < |ids|
        invariant 0 <= i <= |ids| && Distinct(d.surfaces) && Bounded(d.surfaces, d.nextId, d.nextZ)
        invariant Focus(d.surfaces, d.focused)
        invariant d == old(d).(surfaces := d.surfaces, focused := d.focused)
        invariant forall s :: s in d.surfaces <==> s in old(d).surfaces && s.id !in ids[..i]
      {
        DropSurface(ids[i]);
        i := i + 1;
      }
      assert ids[..i] == ids;
      d := d.(clients := SwapRemove(d.clients, c));
      LeaveKeeps(old(d), c, d);
    }

    /** handle_set_geometry; `image` is whether pixels of the new size could be allocated. */
    method SetGeometry(c: nat, id: nat, x: int, y: int, width: nat, height: nat, image: bool)
      requires Ready() && c < |d.clients| && Int32(x) && Int32(y) && (image ==> Side(width) && Side(height))
      modifies this
      ensures Ready() && Placed(old(d), d, c, id, x, y, width, height, image)
    {
      var i := FindSurface(id);
      if i == |d.surfaces| || d.surfaces[i].fd != d.clients[c].fd {
        NotOwned(d, i, id, d.clients[c].fd);
        return;
      }
      assert d.surfaces[i] in d.surfaces;
      var t := Moved(d.surfaces[i], x, y, width, height, image);
      ChangeKeeps(d, i, t, d.(surfaces := d.surfaces[i := t]));
      d := d.(surfaces := d.surfaces[i := t]);
    }

    /** XNX_COMMIT: focus_surface */
    method Commit(c: nat, id: nat) returns (ok: bool)
      requires Ready() && c < |d.clients|
      modifies this
      ensures Ready() && ok == HasSurface(old(d).surfaces, id, old(d).clients[c].fd)
      ensures if ok then Raised(old(d), d, id) else d == old(d)
    {
      var i := FindSurface(id);
      if i == |d.surfaces| || d.surfaces[i].fd != d.clients[c].fd {
        NotOwned(d, i, id, d.clients[c].fd);
        return false;
      }
      assert d.surfaces[i] in d.surfaces;
      var t := d.surfaces[i].(z := d.nextZ);
      var d' := d.(surfaces := d.surfaces[i := t], focused := id, nextZ := d.nextZ + 1);
      ChangeKeeps(d, i, t, d');
      d := d';
      ok := true;
    }
  }

  // ----- every message sequence -----

  /** A message that has been read whole.  `image` is whether the pixels could be allocated; `Malformed`
      is one that is too short for its type, or of no known type. */
  datatype Message =
    | GetDisplayInfo
    | Create(width: nat, height: nat, image: bool)
    | Destroy(id: nat)
    | SetTitle
    | SetGeometry(id: nat, x: int, y: int, width: nat, height: nat, image: bool)
    | WriteBuffer
    | CommitTo(id: nat)
    | Malformed

  predicate Sensible(m: Message) {
    m.SetGeometry? ==> Int32(m.x) && Int32(m.y) && (m.image ==> Side(m.width) && Side(m.height))
  }

  /** The compositor keeps the client on after this message, if its answer can be sent. */
  ghost predicate Accepted(d: Desk, c: nat, m: Message)
    requires c < |d.clients|
  {
    match m
    case Create(width, height, image) =>
      && |d.clients[c].ids| < MAX_SURFACES_PER_CLIENT && |d.surfaces| < MAX_SURFACES
      && 0 < width <= 4096 && 0 < height <= 4096 && image
    case Destroy(id) => HasSurface(d.surfaces, id, d.clients[c].fd)
    case CommitTo(id) => HasSurface(d.surfaces, id, d.clients[c].fd)
    case Malformed => false
    case _ => true
  }

  /** What an accepted message does to the tables. */
  ghost predicate Effect(d: Desk, c: nat, m: Message, d': Desk)
    requires c < |d.clients|
  {
    match m
    case Create(width, height, _) => d' == Created(d, c, width, height)
    case Destroy(id) => Without(d, d', id)
    case SetGeometry(id, x, y, width, height, image) => Placed(d, d', c, id, x, y, width, height, image)
    case CommitTo(id) => Raised(d, d', id)
    case _ => d' == d
  }

  ghost predicate Without(d: Desk, d': Desk, id: nat) {
    && d' == d.(surfaces := d'.surfaces, clients := d'.clients, focused := d'.focused)
    && forall s :: s in d'.surfaces <==> s in d.surfaces && s.id != id
  }

  ghost predicate Placed(d: Desk, d': Desk, c: nat, id: nat, x: int, y: int, width: nat, height: nat, image: bool)
    requires c < |d.clients|
  {
    && d' == d.(surfaces := d'.surfaces) && |d'.surfaces| == |d.surfaces|
    && forall i :: 0 <= i < |d'.surfaces| ==>
         var s := d.surfaces[i];
         d'.surfaces[i] == if s.id == id && s.fd == d.clients[c].fd then Moved(s, x, y, width, height, image) else s
  }

  ghost predicate Raised(d: Desk, d': Desk, id: nat) {
    && d' == d.(surfaces := d'.surfaces, focused := id, nextZ := d.nextZ + 1) && |d'.surfaces| == |d.surfaces|
    && forall i :: 0 <= i < |d'.surfaces| ==>
         var s := d.surfaces[i];
         d'.surfaces[i] == if s.id == id then s.(z := d.nextZ) else s
  }

  /** The message is answered, and the answer can fail to be sent. */
  predicate Answered(m: Message) { m.GetDisplayInfo? || m.Create? || m.CommitTo? }

  /** Nobody's surfaces but those of the c-th client are touched, nor the lists of the others. */
  ghost predicate OthersKept(d: Desk, d': Desk, c: nat)
    requires c < |d.clients|
  {
    && |d'.clients| == |d.clients| && d'.clients[c].fd == d.clients[c].fd && d'.clients == d.clients[c := d'.clients[c]]
    && forall s: Surface :: s.fd != d.clients[c].fd ==> (s in d.surfaces <==> s in d'.surfaces)
  }

  lemma {:induction false} SameKept(d: Desk, c: nat)
    requires c < |d.clients|
    ensures OthersKept(d, d, c)
  {
    assert d.clients[c := d.clients[c]] == d.clients;
  }

  lemma {:induction false} CreatedKept(d: Desk, c: nat, width: nat, height: nat)
    requires c < |d.clients|
    ensures OthersKept(d, Created(d, c, width, height), c)
  {
    var d' := Created(d, c, width, height);
    assert d'.clients == d.clients[c := d'.clients[c]];
  }

  lemma {:induction false} DestroyedKept(d: Desk, c: nat, id: nat, d': Desk)
    requires Valid(d) && c < |d.clients| && HasSurface(d.surfaces, id, d.clients[c].fd)
    requires |d'.clients| == |d.clients| && d'.clients[c].fd == d.clients[c].fd
    requires d'.clients == d.clients[c := d'.clients[c]]
    requires forall s :: s in d'.surfaces <==> s in d.surfaces && s.id != id
    ensures OthersKept(d, d', c)
  {
    OwnOnly(d, id, d.clients[c].fd);
  }

  /** If only surfaces of the client change, in place, those of the others are the same. */
  lemma {:induction false} ChangedKept(d: Desk, c: nat, d': Desk)
    requires c < |d.clients| && d'.clients == d.clients && |d'.surfaces| == |d.surfaces|
    requires forall i :: 0 <= i < |d.surfaces| ==>
      d'.surfaces[i].fd == d.surfaces[i].fd && (d.surfaces[i].fd != d.clients[c].fd ==> d'.surfaces[i] == d.surfaces[i])
    ensures OthersKept(d, d', c)
  {
    forall s: Surface | s.fd != d.clients[c].fd ensures s in d.surfaces <==> s in d'.surfaces {
      if s in d.surfaces {
        var i :| 0 <= i < |d.surfaces| && d.surfaces[i] == s;
        assert d'.surfaces[i] == s;
      }
      if s in d'.surfaces {
        var i :| 0 <= i < |d'.surfaces| && d'.surfaces[i] == s;
        assert d.surfaces[i] == s;
      }
    }
    assert d.clients[c := d.clients[c]] == d.clients;
  }

  /** A surface of the client is the only one with its id. */
  lemma {:induction false} OwnOnly(d: Desk, id: nat, fd: int)
    requires Valid(d) && HasSurface(d.surfaces, id, fd)
    ensures forall t :: t in d.surfaces && t.id == id ==> t.fd == fd
    ensures forall i :: 0 <= i < |d.surfaces| && d.surfaces[i].id == id ==> d.surfaces[i].fd == fd
  {
    var s :| s in d.surfaces && s.id == id && s.fd == fd;
    forall t | t in d.surfaces && t.id == id ensures t.fd == fd {
      SameId(d.surfaces, s, t);
    }
  }

  /** handle_client_message; `sent` is whether an answer gets through. */
  method HandleMessage(s: Server, c: nat, m: Message, sent: bool) returns (ok: bool)
    requires s.Ready() && c < |s.d.clients| && Sensible(m)
    modifies s
    ensures s.Ready() && OthersKept(old(s.d), s.d, c)
    ensures ok <==> Accepted(old(s.d), c, m) && (Answered(m) ==> sent)
    ensures if Accepted(old(s.d), c, m) then Effect(old(s.d), c, m, s.d) else s.d == old(s.d)
  {
    if m.Create? || m.Destroy? || m.SetGeometry? || m.CommitTo? {
      ok := Change(s, c, m);
    } else {
      SameKept(s.d, c);
      ok := !m.Malformed?;
    }
    ok := ok && (Answered(m) ==> sent);
  }

  /** The messages that change the tables. */
  method Change(s: Server, c: nat, m: Message) returns (ok: bool)
    requires s.Ready() && c < |s.d.clients| && Sensible(m) && (m.Create? || m.Destroy? || m.SetGeometry? || m.CommitTo?)
    modifies s
    ensures s.Ready() && OthersKept(old(s.d), s.d, c)
    ensures ok <==> Accepted(old(s.d), c, m)
    ensures if ok then Effect(old(s.d), c, m, s.d) else s.d == old(s.d)
  {
    match m {
      case Create(width, height, image) =>
        CreatedKept(s.d, c, width, height);
        SameKept(s.d, c);
        var id;
        ok, id := s.CreateSurface(c, width, height, image);
      case Destroy(id) =>
        ok := Remove(s, c, id);
      case SetGeometry(id, x, y, width, height, image) =>
        Place(s, c, id, x, y, width, height, image);
        ok := true;
      case CommitTo(id) =>
        ok := Raise(s, c, id);
    }
  }

  method Remove(s: Server, c: nat, id: nat) returns (ok: bool)
    requires s.Ready() && c < |s.d.clients|
    modifies s
    ensures s.Ready() && OthersKept(old(s.d), s.d, c)
    ensures ok == HasSurface(old(s.d).surfaces, id, old(s.d).clients[c].fd) && (!ok ==> s.d == old(s.d))
    ensures ok ==> Without(old(s.d), s.d, id)
  {
    SameKept(s.d, c);
    ok := s.DestroySurface(c, id);
    if ok {
      DestroyedKept(old(s.d), c, id, s.d);
    }
  }

  method Place(s: Server, c: nat, id: nat, x: int, y: int, width: nat, height: nat, image: bool)
    requires s.Ready() && c < |s.d.clients| && Int32(x) && Int32(y) && (image ==> Side(width) && Side(height))
    modifies s
    ensures s.Ready() && OthersKept(old(s.d), s.d, c) && Placed(old(s.d), s.d, c, id, x, y, width, height, image)
  {
    s.SetGeometry(c, id, x, y, width, height, image);
    MovedKept(old(s.d), c, s.d, id, x, y, width, height, image);
  }

  lemma {:induction false} MovedKept(d: Desk, c: nat, d': Desk, id: nat, x: int, y: int, width: nat, height: nat,
                                     image: bool)
    requires c < |d.clients| && Placed(d, d', c, id, x, y, width, height, image)
    ensures OthersKept(d, d', c)
  {
    ChangedKept(d, c, d');
  }

  method Raise(s: Server, c: nat, id: nat) returns (ok: bool)
    requires s.Ready() && c < |s.d.clients|
    modifies s
    ensures s.Ready() && OthersKept(old(s.d), s.d, c)
    ensures ok == HasSurface(old(s.d).surfaces, id, old(s.d).clients[c].fd) && (!ok ==> s.d == old(s.d))
    ensures ok ==> Raised(old(s.d), s.d, id)
  {
    SameKept(s.d, c);
    ok := s.Commit(c, id);
    if ok {
      RaisedKept(old(s.d), c, s.d, id);
    }
  }

  lemma {:induction false} RaisedKept(d: Desk, c: nat, d': Desk, id: nat)
    requires Valid(d) && c < |d.clients| && HasSurface(d.surfaces, id, d.clients[c].fd) && Raised(d, d', id)
    ensures OthersKept(d, d', c)
  {
    OwnOnly(d, id, d.clients[c].fd);
    ChangedKept(d, c, d');
  }

  /** What reaches the compositor: a connection, a message of the c-th client, the end of one. */
  datatype Input = Connect(fd: int) | Speak(c: nat, m: Message, sent: bool) | HangUp(c: nat)

  /** The client is gone, with all its surfaces and nobody else's. */
  ghost predicate Departed(d: Desk, c: nat, d': Desk)
    requires c < |d.clients|
  {
    && d'.clients == SwapRemove(d.clients, c) && d.nextId <= d'.nextId && d.nextZ <= d'.nextZ
    && forall s :: s in d'.surfaces <==> s in d.surfaces && s.fd != d.clients[c].fd
  }

  ghost predicate Unused(d: Desk, fd: int) { forall k :: 0 <= k < |d.clients| ==> d.clients[k].fd != fd }

  /** What one round makes of the tables: a client whose message fails is dropped. */
  ghost predicate Took(d: Desk, input: Input, d': Desk) {
    match input
    case Connect(fd) =>
      d' == if Unused(d, fd) && |d.clients| < MAX_CLIENTS then d.(clients := d.clients + [Client(fd, [])]) else d
    case Speak(c, m, sent) =>
      if c >= |d.clients| then d' == d
      else if Accepted(d, c, m) && (Answered(m) ==> sent) then OthersKept(d, d', c) && Effect(d, c, m, d')
      else Departed(d, c, d')
    case HangUp(c) => if c >= |d.clients| then d' == d else Departed(d, c, d')
  }

  /** Whatever a message has done to its client's surfaces, they go with the client. */
  lemma {:induction false} DepartedAfter(d: Desk, c: nat, mid: Desk, d': Desk)
    requires c < |d.clients| && OthersKept(d, mid, c) && Departed(mid, c, d')
    requires d.nextId <= mid.nextId && d.nextZ <= mid.nextZ
    ensures Departed(d, c, d')
  {
    assert SwapRemove(mid.clients, c) == SwapRemove(d.clients, c);
  }

  /** One round of the main loop. */
  method Round(s: Server, input: Input)
    requires s.Ready() && (input.Speak? ==> Sensible(input.m))
    modifies s
    ensures s.Ready() && Took(old(s.d), input, s.d)
  {
    match input {
      case Connect(fd) =>
        if forall k :: 0 <= k < |s.d.clients| ==> s.d.clients[k].fd != fd {
          var _ := s.AddClient(fd);
        }
      case Speak(c, m, sent) =>
        if c < |s.d.clients| {
          Listen(s, c, m, sent);
        }
      case HangUp(c) =>
        if c < |s.d.clients| {
          s.RemoveClient(c);
        }
    }
  }

  method Listen(s: Server, c: nat, m: Message, sent: bool)
    requires s.Ready() && c < |s.d.clients| && Sensible(m)
    modifies s
    ensures s.Ready() && Took(old(s.d), Speak(c, m, sent), s.d)
  {
    var ok := HandleMessage(s, c, m, sent);
    if !ok {
      ghost var mid := s.d;
      s.RemoveClient(c);
      DepartedAfter(old(s.d), c, mid, s.d);
    }
  }

  /** What is painted in a round. */
  type Frame = seq<Painting.Paint>

  /** One round: the tables before and after, what was painted and from which surfaces. */
  datatype Turn = Turn(before: Desk, input: Input, after: Desk, frame: Frame, order: seq<Surface>)

  /** The round did what its input asks for, and painted what is on the screen, lowest first. */
  ghost predicate Right(t: Turn, w: nat, h: nat) {
    && Took(t.before, t.input, t.after) && Valid(t.after)
    && Painting.PaintedBelow(t.after.surfaces, t.after.nextZ, w, h, t.frame, t.order)
  }

  lemma {:induction false} EachOnce(t: Turn, w: nat, h: nat, s: Surface)
    requires Right(t, w, h) && s in t.after.surfaces && Painting.OnScreen(s, w, h)
    ensures Painting.PaintedOnce(t.frame, s, w, h)
  {
    Painting.OnceEach(t.after.surfaces, t.after.nextZ, w, h, t.frame, t.order, s);
  }

  ghost function Rightness(w: nat, h: nat): Turn -> bool { t => Right(t, w, h) }

  /** Each element of the run has the property. */
  ghost predicate Always<T(!new)>(p: T -> bool, run: seq<T>) { forall i :: 0 <= i < |run| ==> p(run[i]) }

  lemma {:induction false} AlwaysOn<T(!new)>(p: T -> bool, run: seq<T>, t: T)
    requires Always(p, run) && p(t)
    ensures Always(p, run + [t])
  {
  }

  ghost function End(d: Desk, turns: seq<Turn>): Desk { if turns == [] then d else turns[|turns| - 1].after }

  /** The rounds follow on each other from d on, for these inputs and with these frames. */
  ghost predicate Follow(d: Desk, turns: seq<Turn>, inputs: seq<Input>, frames: seq<Frame>) {
    && |turns| == |inputs| == |frames|
    && forall i :: 0 <= i < |turns| ==>
         && (i == 0 ==> turns[i].before == d) && (i > 0 ==> turns[i].before == turns[i - 1].after)
         && turns[i].input == inputs[i] && turns[i].frame == frames[i]
  }

  lemma {:induction false} FollowOn(d: Desk, turns: seq<Turn>, inputs: seq<Input>, frames: seq<Frame>, t: Turn)
    requires Follow(d, turns, inputs, frames) && t.before == End(d, turns)
    ensures Follow(d, turns + [t], inputs + [t.input], frames + [t.frame])
  {
    var turns' := turns + [t];
    assert forall i :: 0 <= i < |turns| ==> turns'[i] == turns[i];
  }

  /** The main loop, over every sequence of inputs: each round does to the tables what its input asks
      for, keeps them in order, and paints what is then on the screen. */
  method Session(s: Server, inputs: seq<Input>, w: nat, h: nat) returns (frames: seq<Frame>, ghost turns: seq<Turn>)
    requires Side(w) && Side(h)
    requires s.Ready() && forall i :: 0 <= i < |inputs| && inputs[i].Speak? ==> Sensible(inputs[i].m)
    modifies s
    ensures s.Ready() && s.d == End(old(s.d), turns)
    ensures Follow(old(s.d), turns, inputs, frames) && Always(Rightness(w, h), turns)
  {
    frames, turns := [], [];
    for i := 0 to |inputs|
      invariant s.Ready() && s.d == End(old(s.d), turns)
      invariant Follow(old(s.d), turns, inputs[..i], frames) && Always(Rightness(w, h), turns)
    {
      assert inputs[..i] + [inputs[i]] == inputs[..i + 1];
      frames, turns := Next(s, inputs[i], w, h, frames, turns, old(s.d), inputs[..i]);
    }
    assert inputs[..|inputs|] == inputs;
  }

  /** One turn of the loop: d and `inputs` are what it began with and what came before. */
  method Next(s: Server, input: Input, w: nat, h: nat, frames: seq<Frame>, ghost turns: seq<Turn>,
              ghost d: Desk, ghost inputs: seq<Input>)
    returns (frames': seq<Frame>, ghost turns': seq<Turn>)
    requires Side(w) && Side(h) && s.Ready() && (input.Speak? ==> Sensible(input.m)) && s.d == End(d, turns)
    requires Follow(d, turns, inputs, frames) && Always(Rightness(w, h), turns)
    modifies s
    ensures s.Ready() && s.d == End(d, turns')
    ensures Follow(d, turns', inputs + [input], frames') && Always(Rightness(w, h), turns')
  {
    var frame;
    ghost var t;
    frame, t := Show(s, input, w, h);
    FollowOn(d, turns, inputs, frames, t);
    AlwaysOn(Rightness(w, h), turns, t);
    frames', turns' := frames + [frame], turns + [t];
  }

  method Show(s: Server, input: Input, w: nat, h: nat) returns (frame: Frame, ghost t: Turn)
    requires Side(w) && Side(h) && s.Ready() && (input.Speak? ==> Sensible(input.m))
    modifies s
    ensures s.Ready() && Rightness(w, h)(t) && t == Turn(old(s.d), input, s.d, frame, t.order)
  {
    Round(s, input);
    ghost var order;
    frame, order := Painting.Composite(s.d.surfaces, s.d.nextZ, w, h);
    t := Turn(old(s.d), input, s.d, frame, order);
  }

  /** The new place of a surface, and its new size if there are pixels for it. */
  function Moved(s: Surface, x: int, y: int, width: nat, height: nat, image: bool): Surface {
    if width > 0 && height > 0 && image then s.(x := x, y := y, width := width, height := height)
    else s.(x := x, y := y)
  }

  lemma {:induction false} NotOwned(d: Desk, i: nat, id: nat, fd: int)
    requires Valid(d) && i <= |d.surfaces|
    requires if i < |d.surfaces| then d.surfaces[i].id == id && d.surfaces[i].fd != fd
             else forall s :: s in d.surfaces ==> s.id != id
    ensures forall s :: s in d.surfaces ==> !(s.id == id && s.fd == fd)
  {
    forall s | s in d.surfaces && s.id == id
      ensures s.fd != fd
    {
      if i < |d.surfaces| {
        SameId(d.surfaces, s, d.surfaces[i]);
      }
    }
  }

  lemma {:induction false} EntryRemoved(ids: seq<nat>, k: nat)
    requires NoTwice(ids) && k < |ids|
    ensures var r := SwapRemove(ids, k); NoTwice(r) && forall id :: id in r <==> id in ids && id != ids[k]
  {
    var r := SwapRemove(ids, k);
    forall id | id in ids && id != ids[k]
      ensures id in r
    {
      var j :| 0 <= j < |ids| && ids[j] == id;
      if j == |ids| - 1 {
        assert r[k] == id;
      } else {
        assert r[j] == id;
      }
    }
  }

  /** No list holds the id 0, which stands for no surface. */
  lemma {:induction false} NonZero(d: Desk, c: nat)
    requires Valid(d) && c < |d.clients|
    ensures 0 !in d.clients[c].ids
  {
    assert d.clients[c] in d.clients;
    assert Lists(d.surfaces, d.clients[c]);
    forall id | id in d.clients[c].ids
      ensures id != 0
    {
      assert HasSurface(d.surfaces, id, d.clients[c].fd);
    }
  }
}

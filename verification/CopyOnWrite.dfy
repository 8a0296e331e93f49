/** Copy-on-write fork against eager fork.

    `Lazy` is what the kernel keeps: page-table entries per (address space, virtual page),
    over one shared physical memory.  `Eager` is the reference: every address space owns its
    pages.  Over every run, both show the same bytes. */
module CopyOnWrite {
  import opened Entries

  /** (address space, virtual page number) */
  type Place = (int, int)

  datatype Lazy = Lazy(spaces: set<int>, pte: map<Place, Word>, mem: Memory)

  datatype EagerPage = EagerPage(words: Page, writable: bool)
  datatype Eager = Eager(spaces: set<int>, pages: map<Place, EagerPage>)

  datatype Event =
    | Create(space: int)
    | Alloc(space: int, page: int, entry: Word, init: Page)
    | Fork(parent: int, child: int)
    | Write(space: int, page: int, index: int, value: Word)

  ghost predicate Mapped(s: Lazy, f: int) {
    exists k :: k in s.pte && s.pte[k].frame == f
  }

  /** The frames user pages live in keep their contents, except possibly `but`. */
  ghost predicate KeepsFrames(s: Lazy, s': Lazy, but: int) {
    forall k :: k in s.pte && s.pte[k].frame != but ==> s'.mem[s.pte[k].frame] == s.mem[s.pte[k].frame]
  }

  /** A store to this entry's page takes effect, if need be after a copy. */
  predicate MayWrite(w: Word) { Writable(w) || Cow(w) }

  // ----- the kernel's steps -----

  ghost predicate Step(s: Lazy, e: Event, s': Lazy) {
    match e
    case Create(d) => CreateStep(s, d, s')
    case Alloc(d, v, w, init) => AllocStep(s, d, v, w, init, s')
    case Fork(p, c) => ForkStep(s, p, c, s')
    case Write(d, v, i, x) =>
      d in s.spaces && 0 <= i < ENTRIES &&
      if (d, v) !in s.pte || !MayWrite(s.pte[(d, v)]) then RefusedStep(s, s')
      else if Writable(s.pte[(d, v)]) then StoreStep(s, (d, v), i, x, s')
      else exists f: Frame :: CopyStep(s, (d, v), i, x, f, s')
  }

  ghost predicate CreateStep(s: Lazy, d: int, s': Lazy) {
    && d !in s.spaces
    && s'.spaces == s.spaces + {d} && s'.pte == s.pte && KeepsFrames(s, s', -1)
  }

  ghost predicate AllocStep(s: Lazy, d: int, v: int, w: Word, init: Page, s': Lazy) {
    && d in s.spaces && !Mapped(s, w.frame)
    && s'.spaces == s.spaces && s'.pte == s.pte[(d, v) := w]
    && s'.mem[w.frame] == init && KeepsFrames(s, s', -1)
  }

  ghost predicate ForkStep(s: Lazy, p: int, c: int, s': Lazy) {
    && p in s.spaces && c !in s.spaces
    && s'.spaces == s.spaces + {c}
    && s'.pte == ForkedEntries(s.pte, p, c)
    && KeepsFrames(s, s', -1)
  }

  function ChildPlaces(ks: set<Place>, p: int, c: int): set<Place> {
    set k | k in ks && k.0 == p :: (c, k.1)
  }

  /** The parent's entries are marked, the child gets a shared copy of each. */
  function ForkedEntries(pte: map<Place, Word>, p: int, c: int): map<Place, Word> {
    (map k | k in pte :: if k.0 == p then MarkCow(pte[k]) else pte[k]) +
    (map k | k in ChildPlaces(pte.Keys, p, c) :: ShareCow(pte[(p, k.1)]))
  }

  ghost predicate RefusedStep(s: Lazy, s': Lazy) {
    s'.spaces == s.spaces && s'.pte == s.pte && KeepsFrames(s, s', -1)
  }

  ghost predicate StoreStep(s: Lazy, k: Place, i: int, x: Word, s': Lazy)
    requires k in s.pte && 0 <= i < ENTRIES
  {
    && s'.spaces == s.spaces && s'.pte == s.pte
    && s'.mem[s.pte[k].frame] == s.mem[s.pte[k].frame][i := x]
    && KeepsFrames(s, s', s.pte[k].frame)
  }

  ghost predicate CopyStep(s: Lazy, k: Place, i: int, x: Word, f: Frame, s': Lazy)
    requires k in s.pte && 0 <= i < ENTRIES
  {
    && !Mapped(s, f)
    && s'.spaces == s.spaces && s'.pte == s.pte[k := Privatize(s.pte[k], f)]
    && s'.mem[f] == s.mem[s.pte[k].frame][i := x]
    && forall k' :: k' in s.pte && k' != k ==> s'.mem[s.pte[k'].frame] == s.mem[s.pte[k'].frame]
  }

  /** The fault handler alone: the page moves to a frame of its own. */
  ghost predicate FaultStep(s: Lazy, k: Place, f: Frame, s': Lazy)
    requires k in s.pte
  {
    && !Mapped(s, f)
    && s'.spaces == s.spaces && s'.pte == s.pte[k := Privatize(s.pte[k], f)]
    && s'.mem[f] == s.mem[s.pte[k].frame]
    && KeepsFrames(s, s', -1)
  }

  /** The fault, then the store repeated. */
  lemma FaultThenStore(s: Lazy, k: Place, f: Frame, s1: Lazy, i: int, x: Word, s2: Lazy)
    requires k in s.pte && 0 <= i < ENTRIES
    requires FaultStep(s, k, f, s1) && StoreStep(s1, k, i, x, s2)
    ensures CopyStep(s, k, i, x, f, s2)
  {
    forall k' | k' in s.pte && k' != k ensures s2.mem[s.pte[k'].frame] == s.mem[s.pte[k'].frame] {
      assert s1.pte[k'] == s.pte[k'];
    }
  }

  // ----- the eager reference -----

  function EagerStep(g: Eager, e: Event): Eager {
    match e
    case Create(d) => g.(spaces := g.spaces + {d})
    case Alloc(d, v, w, init) => g.(pages := g.pages[(d, v) := EagerPage(init, MayWrite(w))])
    case Fork(p, c) =>
      Eager(g.spaces + {c},
            g.pages + map k | k in ChildPlaces(g.pages.Keys, p, c) :: EagerPage(g.pages[(p, k.1)].words, true))
    case Write(d, v, i, x) =>
      if (d, v) in g.pages && g.pages[(d, v)].writable && 0 <= i < ENTRIES
      then g.(pages := g.pages[(d, v) := EagerPage(g.pages[(d, v)].words[i := x], true)])
      else g
  }

  function EagerRun(es: seq<Event>): Eager {
    if es == [] then Eager({}, map[]) else EagerStep(EagerRun(es[..|es|-1]), es[|es|-1])
  }

  // ----- what every run keeps -----

  /** Entries belong to live spaces, and a frame mapped at two places is writable through neither. */
  ghost predicate NoSharedWritable(s: Lazy) {
    && (forall k :: k in s.pte ==> k.0 in s.spaces)
    && forall k, k' :: k in s.pte && k' in s.pte && k != k' && s.pte[k].frame == s.pte[k'].frame ==>
         !Writable(s.pte[k])
  }

  /** Every page of every space shows the bytes and the permission of the reference. */
  ghost predicate Shows(s: Lazy, g: Eager) {
    && g.spaces == s.spaces
    && g.pages.Keys == s.pte.Keys
    && forall k :: k in s.pte ==> g.pages[k] == EagerPage(s.mem[s.pte[k].frame], MayWrite(s.pte[k]))
  }

  /** Where a forked entry comes from. */
  function Origin(k: Place, p: int, c: int): Place { if k.0 == c then (p, k.1) else k }

  lemma ForkedEntry(pte: map<Place, Word>, p: int, c: int, k: Place)
    requires p != c && forall k' :: k' in pte ==> k'.0 != c
    ensures k in ForkedEntries(pte, p, c) <==> Origin(k, p, c) in pte
    ensures k in ForkedEntries(pte, p, c) ==>
      var w, w' := pte[Origin(k, p, c)], ForkedEntries(pte, p, c)[k];
      && w' == (if k.0 == c then ShareCow(w) else if k.0 == p then MarkCow(w) else w)
  {
  }

  lemma ForkKeepsSharing(s: Lazy, p: int, c: int, s': Lazy)
    requires ForkStep(s, p, c, s') && NoSharedWritable(s)
    ensures NoSharedWritable(s')
  {
    forall k | k in s'.pte ensures k.0 in s'.spaces {
      ForkedEntry(s.pte, p, c, k);
    }
    forall k, k' | k in s'.pte && k' in s'.pte && k != k' && s'.pte[k].frame == s'.pte[k'].frame
      ensures !Writable(s'.pte[k])
    {
      ForkedEntry(s.pte, p, c, k);
      ForkedEntry(s.pte, p, c, k');
    }
  }

  lemma ForkShowsAt(s: Lazy, p: int, c: int, s': Lazy, g: Eager, k: Place)
    requires ForkStep(s, p, c, s') && NoSharedWritable(s) && Shows(s, g)
    ensures k in EagerStep(g, Fork(p, c)).pages <==> k in s'.pte
    ensures k in s'.pte ==>
      EagerStep(g, Fork(p, c)).pages[k] == EagerPage(s'.mem[s'.pte[k].frame], MayWrite(s'.pte[k]))
  {
    ForkedEntry(s.pte, p, c, k);
    assert (k.0 == c && (p, k.1) in g.pages) <==> k in ChildPlaces(g.pages.Keys, p, c);
    assert k in s'.pte ==> Origin(k, p, c) in s.pte;
  }

  lemma ForkKeys(s: Lazy, p: int, c: int, s': Lazy, g: Eager)
    requires ForkStep(s, p, c, s') && NoSharedWritable(s) && Shows(s, g)
    ensures EagerStep(g, Fork(p, c)).pages.Keys == s'.pte.Keys
  {
    forall k ensures k in EagerStep(g, Fork(p, c)).pages <==> k in s'.pte { ForkShowsAt(s, p, c, s', g, k); }
  }

  lemma ForkShows(s: Lazy, p: int, c: int, s': Lazy, g: Eager)
    requires ForkStep(s, p, c, s') && NoSharedWritable(s) && Shows(s, g)
    ensures Shows(s', EagerStep(g, Fork(p, c)))
  {
    var g' := EagerStep(g, Fork(p, c));
    ForkKeys(s, p, c, s', g);
    assert g'.spaces == s'.spaces;
    forall k | k in s'.pte ensures g'.pages[k] == EagerPage(s'.mem[s'.pte[k].frame], MayWrite(s'.pte[k])) {
      ForkShowsAt(s, p, c, s', g, k);
    }
  }

  /** The child may write every page; so fork carries the permissions over exactly when the
      parent may write all of its pages. */
  lemma ForkPermissions(s: Lazy, p: int, c: int, s': Lazy)
    requires ForkStep(s, p, c, s') && NoSharedWritable(s)
    ensures (forall v :: (p, v) in s.pte ==> (c, v) in s'.pte && MayWrite(s'.pte[(c, v)]) == MayWrite(s.pte[(p, v)]))
       <==> (forall v :: (p, v) in s.pte ==> MayWrite(s.pte[(p, v)]))
  {
    forall v ensures (p, v) in s.pte ==> (c, v) in s'.pte && MayWrite(s'.pte[(c, v)]) {
      ForkedEntry(s.pte, p, c, (c, v));
    }
  }

  lemma StoreRefines(s: Lazy, d: int, v: int, i: int, x: Word, s': Lazy, g: Eager)
    requires (d, v) in s.pte && 0 <= i < ENTRIES && Writable(s.pte[(d, v)])
    requires StoreStep(s, (d, v), i, x, s') && NoSharedWritable(s) && Shows(s, g)
    ensures NoSharedWritable(s') && Shows(s', EagerStep(g, Write(d, v, i, x)))
  {
  }

  lemma CopyRefines(s: Lazy, d: int, v: int, i: int, x: Word, f: Frame, s': Lazy, g: Eager)
    requires (d, v) in s.pte && 0 <= i < ENTRIES && Cow(s.pte[(d, v)])
    requires CopyStep(s, (d, v), i, x, f, s') && NoSharedWritable(s) && Shows(s, g)
    ensures NoSharedWritable(s') && Shows(s', EagerStep(g, Write(d, v, i, x)))
  {
  }

  lemma AllocRefines(s: Lazy, d: int, v: int, w: Word, init: Page, s': Lazy, g: Eager)
    requires AllocStep(s, d, v, w, init, s') && NoSharedWritable(s) && Shows(s, g)
    ensures NoSharedWritable(s') && Shows(s', EagerStep(g, Alloc(d, v, w, init)))
  {
  }

  lemma StepRefines(s: Lazy, e: Event, s': Lazy, g: Eager)
    requires Step(s, e, s') && NoSharedWritable(s) && Shows(s, g)
    ensures NoSharedWritable(s') && Shows(s', EagerStep(g, e))
  {
    match e
    case Create(_) =>
    case Alloc(d, v, w, init) => AllocRefines(s, d, v, w, init, s', g);
    case Fork(p, c) =>
      ForkKeepsSharing(s, p, c, s');
      ForkShows(s, p, c, s', g);
    case Write(d, v, i, x) =>
      if (d, v) in s.pte && MayWrite(s.pte[(d, v)]) {
        if Writable(s.pte[(d, v)]) {
          StoreRefines(s, d, v, i, x, s', g);
        } else {
          var f: Frame :| CopyStep(s, (d, v), i, x, f, s');
          CopyRefines(s, d, v, i, x, f, s', g);
        }
      }
  }

  /** A run: states[k] --events[k]--> states[k+1], from a machine without address spaces. */
  ghost predicate IsRun(states: seq<Lazy>, events: seq<Event>) {
    && |states| == |events| + 1
    && states[0].spaces == {} && states[0].pte == map[]
    && forall k :: 0 <= k < |events| ==> Step(states[k], events[k], states[k+1])
  }

  /** From any state that agrees with the reference, all later ones do. */
  lemma {:induction false} ChainShows(states: seq<Lazy>, events: seq<Event>, before: seq<Event>, k: nat)
    requires |states| == |events| + 1 && k <= |events|
    requires forall i :: 0 <= i < |events| ==> Step(states[i], events[i], states[i+1])
    requires NoSharedWritable(states[0]) && Shows(states[0], EagerRun(before))
    ensures NoSharedWritable(states[k]) && Shows(states[k], EagerRun(before + events[..k]))
  {
    if k == 0 {
      assert before + events[..0] == before;
    } else {
      ChainShows(states, events, before, k - 1);
      assert before + events[..k] == before + events[..k-1] + [events[k-1]];
      ShowsOn(states[k-1], events[k-1], states[k], before + events[..k-1]);
    }
  }

  lemma {:induction false} ShowsOn(s: Lazy, e: Event, s': Lazy, es: seq<Event>)
    requires Step(s, e, s') && NoSharedWritable(s) && Shows(s, EagerRun(es))
    ensures NoSharedWritable(s') && Shows(s', EagerRun(es + [e]))
  {
    assert (es + [e])[..|es|] == es;
    StepRefines(s, e, s', EagerRun(es));
  }

  /** Copy-on-write refines eager copying over every run. */
  lemma {:induction false} CopyOnWriteRefinesEager(states: seq<Lazy>, events: seq<Event>, k: nat)
    requires IsRun(states, events) && k <= |events|
    ensures NoSharedWritable(states[k])
    ensures Shows(states[k], EagerRun(events[..k]))
  {
    ChainShows(states, events, [], k);
    assert [] + events[..k] == events[..k];
  }

  // ----- stores by the kernel -----

  /** What a store into one page, whoever makes it, does to the reference. */
  function EagerStore(g: Eager, k: Place, i: int, x: Word): Eager
    requires k in g.pages && 0 <= i < ENTRIES
  {
    g.(pages := g.pages[k := g.pages[k].(words := g.pages[k].words[i := x])])
  }

  ghost predicate MappedOnce(s: Lazy, k: Place)
    requires k in s.pte
  {
    forall k' :: k' in s.pte && s.pte[k'].frame == s.pte[k].frame ==> k' == k
  }

  /** The kernel stores into a present page whatever its entry says, since CR0.WP is clear: no fault, no
      copy.  That is right just when no other place shares the frame, or nothing changes. */
  lemma {:induction false} KernelStore(s: Lazy, k: Place, i: int, x: Word, s': Lazy, g: Eager)
    requires k in s.pte && 0 <= i < ENTRIES && StoreStep(s, k, i, x, s') && Shows(s, g)
    ensures Shows(s', EagerStore(g, k, i, x)) <==> MappedOnce(s, k) || s.mem[s.pte[k].frame][i] == x
  {
    var words, g' := s.mem[s.pte[k].frame], EagerStore(g, k, i, x);
    if words[i] == x {
      assert words[i := x] == words;
    } else if !MappedOnce(s, k) {
      var k' :| k' in s.pte && s.pte[k'].frame == s.pte[k].frame && k' != k;
      assert words[i := x][i] != words[i];
      assert g'.pages[k'].words == words && s'.mem[s'.pte[k'].frame] == words[i := x];
    }
  }

  /** After a fork it shows in the other process, if it changes anything. */
  lemma {:induction false} KernelStoreAfterFork(s: Lazy, p: int, c: int, v: int, i: int, x: Word, s': Lazy, s'': Lazy,
                                                g: Eager)
    requires (p, v) in s.pte && ForkStep(s, p, c, s') && 0 <= i < ENTRIES && NoSharedWritable(s) && Shows(s', g)
    requires (p, v) in s'.pte && StoreStep(s', (p, v), i, x, s'') && s'.mem[s'.pte[(p, v)].frame][i] != x
    ensures !Shows(s'', EagerStore(g, (p, v), i, x))
  {
    ForkedEntry(s.pte, p, c, (p, v));
    ForkedEntry(s.pte, p, c, (c, v));
    assert (c, v) in s'.pte && s'.pte[(c, v)].frame == s'.pte[(p, v)].frame;
    KernelStore(s', (p, v), i, x, s'', g);
  }
}

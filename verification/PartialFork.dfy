/** The copy-on-write fork of src/task.c page by page, when there may not be a frame for every
    page table of the child: which pages the child gets, and how many frames it takes.  The first
    `n` directory slots of the parent that hold a page get a table; pages behind the others are
    marked in the parent but missing in the child. */
module PartialFork {
  import opened Entries
  import opened CopyOnWrite
  import opened PageTables

  /** Slot i of space p holds a page below c. */
  ghost predicate HoldsPage(flat: map<Place, Word>, p: int, i: int, c: int) {
    exists v :: v < c && v / ENTRIES == i && (p, v) in flat
  }

  /** The user slots of space p that hold a page below c. */
  ghost function PageSlots(flat: map<Place, Word>, p: int, c: int): set<int> {
    set i | 8 <= i < 20 && HoldsPage(flat, p, i, c)
  }

  /** There is a table for the slot of page v when n tables can be made in order. */
  ghost predicate Reached(flat: map<Place, Word>, p: int, n: int, v: int) {
    |PageSlots(flat, p, v / ENTRIES * ENTRIES)| < n
  }

  ghost function ReachedPages(flat: map<Place, Word>, p: int, n: int): iset<int> {
    iset v | Reached(flat, p, n, v)
  }

  /** m is what fork makes of m0 once all pages of p below c have been visited, if the child can
      be given those of `reached`. */
  ghost predicate PartlyForked(m0: map<Place, Word>, m: map<Place, Word>, p: int, q: int, c: int, reached: iset<int>) {
    && (forall k: Place :: k.0 != q ==> (k in m <==> k in m0))
    && (forall k :: k in m && k.0 != q ==> m[k] == if k.0 == p && k.1 < c then MarkCow(m0[k]) else m0[k])
    && (forall v :: (q, v) in m <==> (p, v) in m0 && v < c && v in reached)
    && (forall v :: (q, v) in m ==> m[(q, v)] == ShareCow(m0[(p, v)]))
  }

  /** The page at c is shared, into q if its slot is reached. */
  lemma ForkPage(m0: map<Place, Word>, m: map<Place, Word>, p: int, q: int, c: int, reached: iset<int>,
                 m': map<Place, Word>)
    requires PartlyForked(m0, m, p, q, c, reached) && p != q && (p, c) in m0
    requires var w := m0[(p, c)]; var m1 := m[(p, c) := MarkCow(w)];
      m' == if c in reached then m1[(q, c) := ShareCow(w)] else m1
    ensures PartlyForked(m0, m', p, q, c + 1, reached)
  {
  }

  /** A stretch without pages of p is passed over. */
  lemma ForkSkip(m0: map<Place, Word>, m: map<Place, Word>, p: int, q: int, c: int, c': int, reached: iset<int>)
    requires PartlyForked(m0, m, p, q, c, reached) && c <= c'
    requires forall v :: c <= v < c' ==> (p, v) !in m0
    ensures PartlyForked(m0, m, p, q, c', reached)
  {
  }

  // ----- tables and frames -----

  /** The slots there is a table for when n tables can be made in order. */
  ghost function ReachedSlots(flat: map<Place, Word>, p: int, n: int): iset<int> {
    iset i | |PageSlots(flat, p, i * ENTRIES)| < n
  }

  /** Of the slots seen, those reached have a table, and a frame was taken for each. */
  ghost predicate Tabled(seen: set<int>, reached: iset<int>, n: int, tables: set<int>, taken: int) {
    && (forall i :: i in tables <==> i in seen && i in reached)
    && taken == if |seen| < n then |seen| else n
  }

  ghost predicate TablesMade(flat: map<Place, Word>, p: int, c: int, n: int, tables: set<int>, taken: int) {
    Tabled(PageSlots(flat, p, c), ReachedSlots(flat, p, n), n, tables, taken)
  }

  lemma TabledNext(seen: set<int>, reached: iset<int>, n: int, tables: set<int>, taken: int, i: int)
    requires Tabled(seen, reached, n, tables, taken) && (i in reached <==> |seen - {i}| < n)
    ensures i in tables || taken < n <==> i in reached
    ensures i in reached ==> Tabled(seen + {i}, reached, n, tables + {i}, if i in tables then taken else taken + 1)
    ensures i !in reached ==> Tabled(seen + {i}, reached, n, tables, taken)
  {
    if i in seen {
      assert seen + {i} == seen;
    } else {
      assert seen - {i} == seen;
    }
  }

  /** Visiting a page adds its slot. */
  lemma SlotsNext(flat: map<Place, Word>, p: int, c: int)
    requires (p, c) in flat && UserPage(c)
    ensures PageSlots(flat, p, c + 1) == PageSlots(flat, p, c) + {c / ENTRIES}
  {
    forall i ensures HoldsPage(flat, p, i, c + 1) <==> HoldsPage(flat, p, i, c) || i == c / ENTRIES {
      if HoldsPage(flat, p, i, c + 1) && i != c / ENTRIES {
        var v :| v < c + 1 && v / ENTRIES == i && (p, v) in flat;
        assert v < c;
      }
    }
  }

  /** The slot of page c comes after all slots visited, unless it is the one being visited. */
  lemma SlotsBefore(flat: map<Place, Word>, p: int, c: int)
    requires UserPage(c)
    ensures PageSlots(flat, p, c / ENTRIES * ENTRIES) == PageSlots(flat, p, c) - {c / ENTRIES}
  {
    var b := c / ENTRIES * ENTRIES;
    forall i ensures HoldsPage(flat, p, i, b) <==> HoldsPage(flat, p, i, c) && i != c / ENTRIES {
      if HoldsPage(flat, p, i, b) {
        var v :| v < b && v / ENTRIES == i && (p, v) in flat;
        assert v < c;
      }
      if HoldsPage(flat, p, i, c) && i != c / ENTRIES {
        var v :| v < c && v / ENTRIES == i && (p, v) in flat;
        assert v < b;
      }
    }
  }

  /** A table is there or can be made exactly when the slot is reached. */
  lemma TablesNext(flat: map<Place, Word>, p: int, c: int, n: int, tables: set<int>, taken: int)
    requires TablesMade(flat, p, c, n, tables, taken) && (p, c) in flat && UserPage(c)
    ensures c / ENTRIES in tables || taken < n <==> Reached(flat, p, n, c)
    ensures Reached(flat, p, n, c) ==>
      TablesMade(flat, p, c + 1, n, tables + {c / ENTRIES}, if c / ENTRIES in tables then taken else taken + 1)
    ensures !Reached(flat, p, n, c) ==> TablesMade(flat, p, c + 1, n, tables, taken)
  {
    SlotsNext(flat, p, c);
    SlotsBefore(flat, p, c);
    TabledNext(PageSlots(flat, p, c), ReachedSlots(flat, p, n), n, tables, taken, c / ENTRIES);
  }

  // ----- page by page -----

  /** The entries, the child's tables and the frames taken for them. */
  datatype Progress = Progress(flat: map<Place, Word>, tables: set<int>, taken: int)

  /** Page v of p is marked, and shared if its slot has a table or there is room for one. */
  function Visit(s: Progress, p: int, q: int, v: int, n: int): Progress {
    if (p, v) !in s.flat then s else
    var w := s.flat[(p, v)];
    var marked := s.flat[(p, v) := MarkCow(w)];
    if v / ENTRIES in s.tables then s.(flat := marked[(q, v) := ShareCow(w)])
    else if s.taken < n then Progress(marked[(q, v) := ShareCow(w)], s.tables + {v / ENTRIES}, s.taken + 1)
    else s.(flat := marked)
  }

  /** The pages below c in order. */
  function Visited(flat: map<Place, Word>, p: int, q: int, c: nat, n: int): Progress {
    if c == 0 then Progress(flat, {}, 0) else Visit(Visited(flat, p, q, c - 1, n), p, q, c - 1, n)
  }

  /** A stretch without pages of p changes nothing. */
  lemma {:induction false} VisitedSkip(flat: map<Place, Word>, p: int, q: int, c: nat, c': nat, n: int)
    requires c <= c' && forall v :: c <= v < c' ==> (p, v) !in Visited(flat, p, q, c, n).flat
    ensures Visited(flat, p, q, c', n) == Visited(flat, p, q, c, n)
    decreases c'
  {
    if c < c' {
      VisitedSkip(flat, p, q, c, c' - 1, n);
    }
  }

  /** The parent keeps its pages. */
  lemma {:induction false} VisitedParent(flat: map<Place, Word>, p: int, q: int, c: nat, n: int, v: int)
    requires p != q
    ensures (p, v) in Visited(flat, p, q, c, n).flat <==> (p, v) in flat
    ensures c <= v && (p, v) in flat ==> Visited(flat, p, q, c, n).flat[(p, v)] == flat[(p, v)]
  {
    if c > 0 {
      VisitedParent(flat, p, q, c - 1, n, v);
    }
  }

  /** Tables are made for the slots reached. */
  lemma {:induction false} VisitedTables(flat: map<Place, Word>, p: int, q: int, c: nat, n: nat)
    requires p != q && forall k :: k in flat ==> UserPage(k.1)
    ensures TablesMade(flat, p, c, n, Visited(flat, p, q, c, n).tables, Visited(flat, p, q, c, n).taken)
  {
    if c == 0 {
      assert PageSlots(flat, p, 0) == {};
    } else {
      VisitedTables(flat, p, q, c - 1, n);
      VisitedParent(flat, p, q, c - 1, n, c - 1);
      VisitTables(flat, p, q, c - 1, n, Visited(flat, p, q, c - 1, n), Visited(flat, p, q, c, n));
    }
  }

  lemma {:induction false} VisitTables(flat: map<Place, Word>, p: int, q: int, c: nat, n: nat, s: Progress,
                                       s': Progress)
    requires s' == Visit(s, p, q, c, n)
    requires (p, c) in s.flat <==> (p, c) in flat
    requires TablesMade(flat, p, c, n, s.tables, s.taken) && ((p, c) in flat ==> UserPage(c))
    ensures TablesMade(flat, p, c + 1, n, s'.tables, s'.taken)
  {
    if (p, c) in flat {
      TablesNext(flat, p, c, n, s.tables, s.taken);
      assert c / ENTRIES in s.tables ==> s.tables + {c / ENTRIES} == s.tables;
    } else {
      SameSlots(flat, p, c);
    }
  }

  /** When page c is visited, there is a table for it, or room for one, exactly when it is reached. */
  ghost predicate Arrives(flat: map<Place, Word>, p: int, c: nat, n: nat, reached: iset<int>, s: Progress) {
    && ((p, c) in s.flat <==> (p, c) in flat)
    && ((p, c) in flat ==> s.flat[(p, c)] == flat[(p, c)])
    && ((p, c) in flat ==> (c / ENTRIES in s.tables || s.taken < n <==> c in reached))
  }

  ghost predicate ArrivesAt(flat: map<Place, Word>, p: int, q: int, c: nat, n: nat, reached: iset<int>) {
    Arrives(flat, p, c, n, reached, Visited(flat, p, q, c, n))
  }

  lemma {:induction false} VisitedReaches(flat: map<Place, Word>, p: int, q: int, c: nat, n: nat)
    requires p != q && (forall k :: k in flat ==> k.0 != q && UserPage(k.1))
    ensures ArrivesAt(flat, p, q, c, n, ReachedPages(flat, p, n))
  {
    var s := Visited(flat, p, q, c, n);
    VisitedParent(flat, p, q, c, n, c);
    if (p, c) in flat {
      VisitedTables(flat, p, q, c, n);
      TablesNext(flat, p, c, n, s.tables, s.taken);
    }
  }

  /** Pages are shared if their slot is reached. */
  lemma {:induction false} VisitedEntries(flat: map<Place, Word>, p: int, q: int, c: nat, n: nat)
    requires p != q && (forall k :: k in flat ==> k.0 != q && UserPage(k.1))
    ensures PartlyForked(flat, Visited(flat, p, q, c, n).flat, p, q, c, ReachedPages(flat, p, n))
  {
    forall i: nat | i < c ensures ArrivesAt(flat, p, q, i, n, ReachedPages(flat, p, n)) {
      VisitedReaches(flat, p, q, i, n);
    }
    VisitedShares(flat, p, q, c, n, ReachedPages(flat, p, n), Visited(flat, p, q, c, n));
  }

  lemma {:induction false} VisitedShares(flat: map<Place, Word>, p: int, q: int, c: nat, n: nat, reached: iset<int>,
                                         s: Progress)
    requires p != q && s == Visited(flat, p, q, c, n) && (forall k :: k in flat ==> k.0 != q && 0 <= k.1)
    requires forall i: nat :: i < c ==> ArrivesAt(flat, p, q, i, n, reached)
    ensures PartlyForked(flat, s.flat, p, q, c, reached)
    decreases c
  {
    if c > 0 {
      var s1 := Visited(flat, p, q, c - 1, n);
      VisitedShares(flat, p, q, c - 1, n, reached, s1);
      assert ArrivesAt(flat, p, q, c - 1, n, reached);
      VisitEntry(flat, s1, s, p, q, c - 1, n, reached);
    }
  }

  lemma {:induction false} VisitEntry(flat: map<Place, Word>, s: Progress, s': Progress, p: int, q: int, c: nat, n: nat,
                                      reached: iset<int>)
    requires s' == Visit(s, p, q, c, n)
    requires p != q && PartlyForked(flat, s.flat, p, q, c, reached) && Arrives(flat, p, c, n, reached, s)
    ensures PartlyForked(flat, s'.flat, p, q, c + 1, reached)
  {
    if (p, c) in flat {
      ForkPage(flat, s.flat, p, q, c, reached, s'.flat);
    } else {
      ForkSkip(flat, s.flat, p, q, c, c + 1, reached);
    }
  }

  // ----- the whole fork -----

  /** If every page is reached, there are no more slots than tables. */
  lemma {:induction false} FewSlots(flat: map<Place, Word>, p: int, n: nat, c: nat)
    requires forall v :: (p, v) in flat ==> Reached(flat, p, n, v)
    ensures |PageSlots(flat, p, c)| <= n
    decreases c
  {
    if c == 0 {
      assert PageSlots(flat, p, 0) == {};
    } else {
      FewSlots(flat, p, n, c - 1);
      if (p, c - 1) in flat && UserPage(c - 1) {
        NewSlot(flat, p, c - 1);
      } else {
        SameSlots(flat, p, c - 1);
      }
    }
  }

  /** A slot more is the slot of page c, seen for the first time. */
  lemma NewSlot(flat: map<Place, Word>, p: int, c: nat)
    requires (p, c) in flat && UserPage(c)
    ensures |PageSlots(flat, p, c)| < |PageSlots(flat, p, c + 1)| ==>
      && |PageSlots(flat, p, c / ENTRIES * ENTRIES)| == |PageSlots(flat, p, c)|
      && |PageSlots(flat, p, c + 1)| == |PageSlots(flat, p, c)| + 1
  {
    SlotsNext(flat, p, c);
    SlotsBefore(flat, p, c);
    var i, seen := c / ENTRIES, PageSlots(flat, p, c);
    assert if i in seen then seen + {i} == seen else seen - {i} == seen;
  }

  lemma SameSlots(flat: map<Place, Word>, p: int, c: nat)
    requires !((p, c) in flat && UserPage(c))
    ensures PageSlots(flat, p, c + 1) == PageSlots(flat, p, c)
  {
    forall i | 8 <= i < 20 ensures HoldsPage(flat, p, i, c + 1) <==> HoldsPage(flat, p, i, c) {
      if HoldsPage(flat, p, i, c + 1) {
        var v :| v < c + 1 && v / ENTRIES == i && (p, v) in flat;
        assert v < c;
      }
    }
  }

  /** With enough tables every page is reached. */
  lemma AllReached(flat: map<Place, Word>, p: int, n: int, c: int, v: int)
    requires |PageSlots(flat, p, c)| <= n && (p, v) in flat && v < c && UserPage(v)
    ensures Reached(flat, p, n, v)
  {
    var i := v / ENTRIES;
    var before := PageSlots(flat, p, i * ENTRIES);
    forall j | j in before ensures j in PageSlots(flat, p, c) && j != i {
      var u :| u < i * ENTRIES && u / ENTRIES == j && (p, u) in flat;
      assert u < c;
    }
    assert HoldsPage(flat, p, i, c);
    Smaller(before + {i}, PageSlots(flat, p, c));
  }

  lemma Smaller(a: set<int>, b: set<int>)
    requires a <= b
    ensures |a| <= |b|
  {
    assert b == a + (b - a);
  }

  /** If every page is reached, visiting all of them in order amounts to the forked entry map. */
  lemma AllForked(m0: map<Place, Word>, m: map<Place, Word>, p: int, q: int, c: int, reached: iset<int>)
    requires PartlyForked(m0, m, p, q, c, reached) && p != q
    requires forall k :: k in m0 ==> k.0 != q && k.1 < c
    requires forall v :: (p, v) in m0 ==> v in reached
    ensures m == ForkedEntries(m0, p, q)
  {
    forall k ensures k in m <==> k in ForkedEntries(m0, p, q) { ForkedEntry(m0, p, q, k); }
    forall k | k in m ensures m[k] == ForkedEntries(m0, p, q)[k] { ForkedEntry(m0, p, q, k); }
  }

  /** Fork copies everything exactly when there is room for a table per slot in use. */
  lemma {:induction false} ForkDone(flat: map<Place, Word>, p: int, q: int, c: nat, n: nat)
    requires p != q && forall k :: k in flat ==> k.0 != q && k.1 < c && UserPage(k.1)
    ensures Visited(flat, p, q, c, n).flat == ForkedEntries(flat, p, q) <==> |PageSlots(flat, p, c)| <= n
  {
    VisitedEntries(flat, p, q, c, n);
    var m := Visited(flat, p, q, c, n).flat;
    if |PageSlots(flat, p, c)| <= n {
      forall v | (p, v) in flat ensures v in ReachedPages(flat, p, n) { AllReached(flat, p, n, c, v); }
      AllForked(flat, m, p, q, c, ReachedPages(flat, p, n));
    }
    if m == ForkedEntries(flat, p, q) {
      forall v | (p, v) in flat ensures Reached(flat, p, n, v) {
        ForkedEntry(flat, p, q, (q, v));
      }
      FewSlots(flat, p, n, c);
    }
  }

  /** A space with one page has one slot in use. */
  lemma OneSlot(flat: map<Place, Word>, p: int, v: int, c: int)
    requires (p, v) in flat && v < c && UserPage(v) && forall u :: (p, u) in flat ==> u == v
    ensures PageSlots(flat, p, c) == {v / ENTRIES}
  {
  }
}

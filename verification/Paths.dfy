/** Slash-separated paths, and their normalisation (ports/newlib/openhobbyos/compat_fs.c). */
module Paths {
  /** The characters up to the next slash. */
  function Word(p: string): (w: string)
    ensures w <= p && '/' !in w && (|w| < |p| ==> p[|w|] == '/')
  {
    if p == [] || p[0] == '/' then [] else [p[0]] + Word(p[1..])
  }

  /** The components of a path; repeated slashes count as one. */
  function Segments(p: string): (r: seq<string>)
    ensures forall i :: 0 <= i < |r| ==> IsName(r[i])
    decreases |p|
  {
    if p == [] then []
    else if p[0] == '/' then Segments(p[1..])
    else [Word(p)] + Segments(p[|Word(p)|..])
  }

  /** A component. */
  predicate IsName(s: string) { s != [] && '/' !in s }

  /** A component that is not one of the two special ones. */
  predicate IsProper(s: string) { IsName(s) && s != "." && s != ".." }

  predicate AllProper(ss: seq<string>) { forall i :: 0 <= i < |ss| ==> IsProper(ss[i]) }
  predicate AllNames(ss: seq<string>) { forall i :: 0 <= i < |ss| ==> IsName(ss[i]) }

  /** The path with these components. */
  function Join(ss: seq<string>): (p: string)
    ensures p != [] && p[0] == '/'
  {
    if |ss| == 0 then "/"
    else if |ss| == 1 then "/" + ss[0]
    else Join(ss[..|ss| - 1]) + "/" + ss[|ss| - 1]
  }

  lemma {:induction false} WordOf(w: string, p: string)
    requires '/' !in w && (p == [] || p[0] == '/')
    ensures Word(w + p) == w
  {
    if w == [] {
      assert w + p == p;
    } else {
      assert (w + p)[1..] == w[1..] + p;
      WordOf(w[1..], p);
    }
  }

  /** A component at the end of a path that is followed by a slash. */
  lemma {:induction false} SegmentsSnoc(p: string, w: string)
    requires IsName(w)
    ensures Segments(p + "/" + w) == Segments(p) + [w]
    decreases |p|
  {
    var q := p + "/" + w;
    if p == [] {
      WordOf(w, []);
      assert w + [] == w && q[1..] == w && w[|w|..] == [];
    } else if p[0] == '/' {
      assert q[1..] == p[1..] + "/" + w;
      SegmentsSnoc(p[1..], w);
    } else {
      var v := Word(p);
      var rest := p[|v|..];
      assert p == v + rest && q == v + (rest + "/" + w);
      WordOf(v, rest + "/" + w);
      assert q[|v|..] == rest + "/" + w;
      SegmentsSnoc(rest, w);
    }
  }

  /** Printing and splitting are inverse. */
  lemma {:induction false} SegmentsJoin(ss: seq<string>)
    requires AllNames(ss)
    ensures Segments(Join(ss)) == ss
  {
    if |ss| == 1 {
      assert "/" + ss[0] == [] + "/" + ss[0];
      SegmentsSnoc([], ss[0]);
    } else if |ss| > 1 {
      SegmentsJoin(ss[..|ss| - 1]);
      SegmentsSnoc(Join(ss[..|ss| - 1]), ss[|ss| - 1]);
      assert ss == ss[..|ss| - 1] + [ss[|ss| - 1]];
    }
  }

  // ----- normalisation -----

  /** One component: "." stays, ".." goes up, but not above the root. */
  function Step(stack: seq<string>, s: string): seq<string> {
    if s == "." then stack
    else if s == ".." then (if stack == [] then [] else stack[..|stack| - 1])
    else stack + [s]
  }

  function Reduce(ss: seq<string>): (stack: seq<string>)
    requires AllNames(ss)
    ensures AllProper(stack)
  {
    if ss == [] then [] else Step(Reduce(ss[..|ss| - 1]), ss[|ss| - 1])
  }

  function Normal(p: string): string { Join(Reduce(Segments(p))) }

  lemma {:induction false} ReduceProper(ss: seq<string>)
    requires AllProper(ss)
    ensures Reduce(ss) == ss
  {
    if ss != [] {
      ReduceProper(ss[..|ss| - 1]);
      assert ss == ss[..|ss| - 1] + [ss[|ss| - 1]];
    }
  }

  /** A normal path is its own normal form. */
  lemma {:induction false} NormalIdempotent(p: string)
    ensures Normal(Normal(p)) == Normal(p)
  {
    var stack := Reduce(Segments(p));
    SegmentsJoin(stack);
    ReduceProper(stack);
  }

  /** What the buffers can hold: each component, and the path after each step. */
  ghost predicate Fits(ss: seq<string>, nameSize: nat, size: nat)
    requires AllNames(ss)
  {
    ss == [] ||
    (Fits(ss[..|ss| - 1], nameSize, size) && |ss[|ss| - 1]| < nameSize && |Join(Reduce(ss))| < size)
  }

  /** Then so does every beginning. */
  lemma {:induction false} FitsPrefix(ss: seq<string>, k: nat, nameSize: nat, size: nat)
    requires AllNames(ss) && k <= |ss| && Fits(ss, nameSize, size)
    ensures Fits(ss[..k], nameSize, size)
  {
    if k == |ss| {
      assert ss[..k] == ss;
    } else {
      FitsPrefix(ss[..|ss| - 1], k, nameSize, size);
      assert ss[..|ss| - 1][..k] == ss[..k];
    }
  }

  lemma {:induction false} FitsNames(ss: seq<string>, nameSize: nat, size: nat)
    requires AllNames(ss) && Fits(ss, nameSize, size)
    ensures forall s :: s in ss ==> |s| < nameSize
  {
    forall s | s in ss ensures |s| < nameSize {
      var i :| 0 <= i < |ss| && ss[i] == s;
      FitsName(ss, i, nameSize, size);
    }
  }

  lemma {:induction false} FitsName(ss: seq<string>, i: nat, nameSize: nat, size: nat)
    requires AllNames(ss) && i < |ss| && Fits(ss, nameSize, size)
    ensures |ss[i]| < nameSize
  {
    if i < |ss| - 1 {
      FitsName(ss[..|ss| - 1], i, nameSize, size);
    }
  }

  lemma {:induction false} JoinPrefix(ss: seq<string>, k: nat)
    requires AllNames(ss) && k <= |ss|
    ensures |Join(ss[..k])| <= |Join(ss)|
  {
    if k == |ss| {
      assert ss[..k] == ss;
    } else {
      JoinPrefix(ss[..|ss| - 1], k);
      assert ss[..|ss| - 1][..k] == ss[..k];
    }
  }

  lemma {:induction false} StepMembers(stack: seq<string>, s: string)
    ensures forall t :: t in Step(stack, s) ==> t in stack || t == s
  {
  }

  lemma {:induction false} ReduceMembers(ss: seq<string>)
    requires AllNames(ss)
    ensures forall s :: s in Reduce(ss) ==> s in ss
  {
    if ss != [] {
      ReduceMembers(ss[..|ss| - 1]);
      assert ss == ss[..|ss| - 1] + [ss[|ss| - 1]];
      StepMembers(Reduce(ss[..|ss| - 1]), ss[|ss| - 1]);
    }
  }

  /** What fits once fits again when it is normal. */
  lemma {:induction false} FitsNormal(ss: seq<string>, nameSize: nat, size: nat)
    requires AllNames(ss) && Fits(ss, nameSize, size)
    ensures Fits(Reduce(ss), nameSize, size)
  {
    ReduceMembers(ss);
    FitsNames(ss, nameSize, size);
    if ss != [] {
      FitsProper(Reduce(ss), nameSize, size);
    }
  }

  /** Proper components fit if each of them and the whole path do. */
  lemma {:induction false} FitsProper(stack: seq<string>, nameSize: nat, size: nat)
    requires AllProper(stack) && (forall s :: s in stack ==> |s| < nameSize) && |Join(stack)| < size
    ensures Fits(stack, nameSize, size)
  {
    if stack != [] {
      var rest := stack[..|stack| - 1];
      JoinPrefix(stack, |stack| - 1);
      assert forall s :: s in rest ==> s in stack;
      FitsProper(rest, nameSize, size);
      ReduceProper(stack);
    }
  }

  /** Found: a component and where the rest begins.  None: only slashes were left. */
  datatype Segment = Found(text: string, next: nat) | None | TooLong

  /** path_segment of the kernel, and the same loops in oh_normalize_path: the next component from
      `at` on, for a buffer of `size` characters. */
  method NextSegment(p: string, at: nat, size: nat) returns (r: Segment)
    requires at <= |p| && size > 0
    ensures match r
      case Found(text, next) =>
        && at < next <= |p| && |text| < size && Segments(p[at..]) == [text] + Segments(p[next..])
        && p[next - 1] != '/' && (next < |p| ==> p[next] == '/')
      case None => Segments(p[at..]) == []
      case TooLong => Segments(p[at..]) != [] && |Segments(p[at..])[0]| >= size
  {
    var i := SkipSlashes(p, at);
    if i == |p| {
      return None;
    }
    r := ReadWord(p, i, size);
  }

  /** From `cursor` on, the components of p are those of ss from `done` on. */
  ghost predicate Left(p: string, cursor: nat, ss: seq<string>, done: nat) {
    cursor <= |p| && done <= |ss| && Segments(p[cursor..]) == ss[done..]
  }

  lemma {:induction false} AllLeft(p: string)
    ensures Left(p, 0, Segments(p), 0)
  {
    assert p[0..] == p && Segments(p)[0..] == Segments(p);
  }

  lemma {:induction false} NoneLeft(p: string, ss: seq<string>, done: nat)
    requires Left(p, |p|, ss, done)
    ensures done == |ss|
  {
    assert p[|p|..] == [];
  }

  /** NextSegment, counted off the list of components. */
  method NextComponent(p: string, cursor: nat, size: nat, ghost ss: seq<string>, ghost done: nat) returns (r: Segment)
    requires Left(p, cursor, ss, done) && size > 0
    ensures match r
      case Found(text, next) =>
        && done < |ss| && text == ss[done] && |text| < size && cursor < next && Left(p, next, ss, done + 1)
        && p[next - 1] != '/' && (next < |p| ==> p[next] == '/')
      case None => done == |ss|
      case TooLong => done < |ss| && |ss[done]| >= size
  {
    r := NextSegment(p, cursor, size);
    if r.Found? {
      assert ss[done..][1..] == ss[done + 1..];
    }
  }

  method SkipSlashes(p: string, at: nat) returns (i: nat)
    requires at <= |p|
    ensures at <= i <= |p| && Segments(p[at..]) == Segments(p[i..]) && (i < |p| ==> p[i] != '/')
  {
    i := at;
    while i < |p| && p[i] == '/'
      invariant at <= i <= |p| && Segments(p[at..]) == Segments(p[i..])
    {
      assert p[i..][1..] == p[i + 1..];
      i := i + 1;
    }
  }

  /** The characters up to the next slash, at most `size` - 1 of them. */
  method ScanWord(p: string, at: nat, size: nat) returns (i: nat, text: string)
    requires at <= |p| && size > 0
    ensures at <= i <= |p| && i - at < size && text == p[at..i] && (forall k :: at <= k < i ==> p[k] != '/')
    ensures i < |p| && p[i] != '/' ==> i - at + 1 == size
  {
    i, text := at, "";
    while i < |p| && p[i] != '/'
      invariant at <= i <= |p| && i - at < size && text == p[at..i] && forall k :: at <= k < i ==> p[k] != '/'
    {
      if i - at + 1 >= size {
        return;
      }
      text := text + [p[i]];
      i := i + 1;
    }
  }

  method ReadWord(p: string, at: nat, size: nat) returns (r: Segment)
    requires at < |p| && p[at] != '/' && size > 0
    ensures match r
      case Found(text, next) =>
        && at < next <= |p| && |text| < size && Segments(p[at..]) == [text] + Segments(p[next..])
        && p[next - 1] != '/' && (next < |p| ==> p[next] == '/')
      case None => false
      case TooLong => Segments(p[at..]) != [] && |Segments(p[at..])[0]| >= size
  {
    var i, text := ScanWord(p, at, size);
    WordSpan(p, at);
    WordFirst(p, at);
    r := if i < |p| && p[i] != '/' then TooLong else Found(text, i);
  }

  /** Where the word at `at` ends. */
  lemma {:induction false} WordSpan(p: string, at: nat)
    requires at <= |p|
    ensures var end := at + |Word(p[at..])|;
      end <= |p| && (end < |p| ==> p[end] == '/') && forall k :: at <= k < end ==> p[k] != '/'
  {
    var w := Word(p[at..]);
    forall k | at <= k < at + |w|
      ensures p[k] != '/'
    {
      assert w[k - at] == p[at..][k - at] == p[k];
    }
  }

  lemma {:induction false} WordFirst(p: string, at: nat)
    requires at < |p| && p[at] != '/'
    ensures var end := at + |Word(p[at..])|;
      && at < end <= |p| && Segments(p[at..]) != [] && |Segments(p[at..])[0]| == end - at
      && Segments(p[at..]) == [p[at..end]] + Segments(p[end..])
  {
    var w := Word(p[at..]);
    assert p[at..][0] == p[at];
    assert p[at..][|w|..] == p[at + |w|..];
    assert w == p[at..at + |w|];
  }

  /** strrchr(output, '/') */
  method LastSlash(p: string) returns (i: nat)
    requires p != [] && p[0] == '/'
    ensures i < |p| && p[i] == '/' && '/' !in p[i + 1..]
  {
    i := |p| - 1;
    while p[i] != '/'
      invariant 0 <= i < |p| && '/' !in p[i + 1..]
      decreases i
    {
      i := i - 1;
    }
  }

  /** Cutting a path at its last slash drops the last component. */
  lemma {:induction false} CutAtSlash(stack: seq<string>, i: nat)
    requires AllProper(stack)
    requires i < |Join(stack)| && Join(stack)[i] == '/' && '/' !in Join(stack)[i + 1..]
    ensures (if i == 0 then "/" else Join(stack)[..i]) == Join(Step(stack, ".."))
  {
    var p := Join(stack);
    if |stack| == 0 {
    } else {
      var w := stack[|stack| - 1];
      var head := if |stack| == 1 then "" else Join(stack[..|stack| - 1]);
      assert p == head + "/" + w;
      assert p[|head|] == '/' && p[|head| + 1..] == w;
      SlashAt(p, i, |head|);
      assert p[..|head|] == head;
    }
  }

  lemma {:induction false} SlashAt(p: string, i: nat, j: nat)
    requires i < |p| && j < |p| && p[i] == '/' && p[j] == '/' && '/' !in p[i + 1..] && '/' !in p[j + 1..]
    ensures i == j
  {
    NoSlashAfter(p, i);
    NoSlashAfter(p, j);
  }

  lemma {:induction false} NoSlashAfter(p: string, i: nat)
    requires i < |p| && '/' !in p[i + 1..]
    ensures forall k :: i < k < |p| ==> p[k] != '/'
  {
    forall k | i < k < |p|
      ensures p[k] != '/'
    {
      assert p[i + 1..][k - i - 1] == p[k];
    }
  }

  /** oh_path_push */
  method PathPush(output: string, size: nat, component: string, ghost stack: seq<string>) returns (ok: bool, r: string)
    requires AllProper(stack) && output == Join(stack) && IsName(component)
    ensures ok == (|Join(stack + [component])| < size) && (ok ==> r == Join(stack + [component]))
  {
    r := output;
    assert (stack + [component])[..|stack|] == stack;
    if |stack| > 0 {
      JoinLong(stack);
    }
    if r != "/" {
      if |r| + 1 >= size {
        return false, r;
      }
      r := r + "/";
    }
    if |r| + |component| >= size {
      return false, r;
    }
    r := r + component;
    ok := true;
  }

  lemma {:induction false} JoinLong(ss: seq<string>)
    requires AllNames(ss) && ss != []
    ensures |Join(ss)| >= 2
  {
  }

  /** oh_normalize_path of an absolute path. */
  method Normalize(path: string, nameSize: nat, pathMax: nat, size: nat) returns (ok: bool, output: string)
    requires size > 1 && nameSize > 0
    ensures ok <==> |path| < pathMax && Fits(Segments(path), nameSize, size)
    ensures ok ==> output == Normal(path) && |output| < size
  {
    output := "/";
    if |path| >= pathMax {
      return false, output;
    }
    ghost var ss, done := Segments(path), 0;
    AllLeft(path);
    assert ss[..0] == [];
    var cursor := 0;
    while cursor < |path|
      invariant Left(path, cursor, ss, done)
      invariant output == Join(Reduce(ss[..done])) && |output| < size && Fits(ss[..done], nameSize, size)
      decreases |path| - cursor
    {
      var r := NextComponent(path, cursor, nameSize, ss, done);
      if r.None? {
        break;
      }
      FitsNext(ss, done, nameSize, size);
      if r.TooLong? {
        return false, output;
      }
      ghost var stack := Reduce(ss[..done]);
      ok, output := Apply(output, size, r.text, stack);
      if !ok {
        return;
      }
      cursor, done := r.next, done + 1;
    }
    if cursor == |path| {
      NoneLeft(path, ss, done);
    }
    assert ss[..done] == ss;
    ok := true;
  }

  /** What one component does to the output. */
  method Apply(output: string, size: nat, component: string, ghost stack: seq<string>) returns (ok: bool, r: string)
    requires size > 1 && AllProper(stack) && output == Join(stack) && |output| < size && IsName(component)
    ensures ok == (|Join(Step(stack, component))| < size) && (ok ==> r == Join(Step(stack, component)))
  {
    if component == "." {
      return true, output;
    }
    if component == ".." {
      var i := LastSlash(output);
      CutAtSlash(stack, i);
      return true, if i != 0 then output[..i] else "/";
    }
    ok, r := PathPush(output, size, component, stack);
  }

  /** One component more. */
  lemma {:induction false} FitsNext(ss: seq<string>, k: nat, nameSize: nat, size: nat)
    requires AllNames(ss) && k < |ss| && Fits(ss[..k], nameSize, size)
    ensures Reduce(ss[..k + 1]) == Step(Reduce(ss[..k]), ss[k])
    ensures |ss[k]| < nameSize && |Join(Reduce(ss[..k + 1]))| < size ==> Fits(ss[..k + 1], nameSize, size)
    ensures Fits(ss, nameSize, size) ==> |ss[k]| < nameSize && |Join(Reduce(ss[..k + 1]))| < size
  {
    assert ss[..k + 1][..k] == ss[..k];
    if Fits(ss, nameSize, size) {
      FitsPrefix(ss, k + 1, nameSize, size);
    }
  }

  /** oh_normalize_path accepts what it has produced, and leaves it as it is. */
  lemma {:induction false} NormalAccepted(path: string, nameSize: nat, pathMax: nat, size: nat)
    requires 1 < size <= pathMax && Fits(Segments(path), nameSize, size)
    ensures |Normal(path)| < pathMax && Fits(Segments(Normal(path)), nameSize, size)
    ensures Normal(Normal(path)) == Normal(path)
  {
    var ss := Segments(path);
    NormalIdempotent(path);
    SegmentsJoin(Reduce(ss));
    FitsNormal(ss, nameSize, size);
  }

  // ----- lengths -----

  /** The characters of the components, with a slash before each. */
  function Size(ss: seq<string>): nat {
    if ss == [] then 0 else Size(ss[..|ss| - 1]) + |ss[|ss| - 1]| + 1
  }

  lemma {:induction false} SizeCons(s: string, ss: seq<string>)
    ensures Size([s] + ss) == |s| + 1 + Size(ss)
  {
    var xs := [s] + ss;
    if ss == [] {
      assert xs[..0] == [];
    } else {
      SizeCons(s, ss[..|ss| - 1]);
      assert xs[..|xs| - 1] == [s] + ss[..|ss| - 1];
    }
  }

  lemma {:induction false} JoinSize(ss: seq<string>)
    requires AllNames(ss)
    ensures |Join(ss)| == if ss == [] then 1 else Size(ss)
  {
    if |ss| == 1 {
      assert ss[..0] == [];
    } else if |ss| > 1 {
      JoinSize(ss[..|ss| - 1]);
    }
  }

  lemma {:induction false} SegmentsSize(p: string)
    ensures Size(Segments(p)) <= |p| + 1 && (p != [] && p[0] == '/' ==> Size(Segments(p)) <= |p|)
    decreases |p|
  {
    if p != [] {
      if p[0] == '/' {
        SegmentsSize(p[1..]);
      } else {
        var w := Word(p);
        SegmentsSize(p[|w|..]);
        SizeCons(w, Segments(p[|w|..]));
        assert |w| < |p| ==> p[|w|..][0] == p[|w|];
      }
    }
  }

  lemma {:induction false} ReduceSize(ss: seq<string>)
    requires AllNames(ss)
    ensures Size(Reduce(ss)) <= Size(ss)
  {
    if ss != [] {
      var stack, s := Reduce(ss[..|ss| - 1]), ss[|ss| - 1];
      ReduceSize(ss[..|ss| - 1]);
      assert (stack + [s])[..|stack|] == stack;
    }
  }

  /** Normalising an absolute path does not make it longer. */
  lemma {:induction false} NormalShorter(p: string)
    requires p != [] && p[0] == '/'
    ensures |Normal(p)| <= |p|
  {
    SegmentsSize(p);
    ReduceSize(Segments(p));
    JoinSize(Reduce(Segments(p)));
  }
}

/** The first stack of a process: built by the kernel (src/task.c), read back by the start code of
    the program (user/lib/start.c); section 2.3.1 of the System V i386 psABI. */
module UserStack {
  import opened Bytes
  import opened UserRange

  const STACK_TOP := 0x04FF_F000
  const ARG_MAX := 32

  /** A C string without its terminator. */
  predicate IsText(s: seq<Byte>) { forall i :: 0 <= i < |s| ==> s[i] != 0 }

  /** The string s stands at address p. */
  predicate Holds(m: seq<Byte>, p: nat, s: seq<Byte>) { p + |s| < |m| && m[p..p + |s|] == s && m[p + |s|] == 0 }

  /** The words ws stand at address p, one after the other. */
  predicate Words(m: seq<Byte>, p: nat, ws: seq<U32>) {
    p + 4 * |ws| <= |m| && forall i :: 0 <= i < |ws| ==> Load32(m, p + 4 * i) == ws[i]
  }

  /** The strings stand at these addresses, all within [lo, hi). */
  predicate Strings(m: seq<Byte>, lo: nat, hi: nat, ps: seq<U32>, ss: seq<seq<Byte>>) {
    |ps| == |ss| && forall i :: 0 <= i < |ss| ==> lo <= ps[i] && ps[i] + |ss[i]| < hi && Holds(m, ps[i], ss[i])
  }

  /** What a push keeps: everything from lo on. */
  predicate Above(m: seq<Byte>, m': seq<Byte>, lo: nat) {
    |m'| == |m| && forall a :: lo <= a < |m| ==> m'[a] == m[a]
  }

  lemma {:induction false} HoldsAbove(m: seq<Byte>, m': seq<Byte>, lo: nat, p: nat, s: seq<Byte>)
    requires Above(m, m', lo) && lo <= p && Holds(m, p, s)
    ensures Holds(m', p, s)
  {
    assert m'[p..p + |s|] == m[p..p + |s|];
  }

  lemma {:induction false} StringsAbove(m: seq<Byte>, m': seq<Byte>, lo: nat, hi: nat, ps: seq<U32>,
                                        ss: seq<seq<Byte>>, at: nat)
    requires Above(m, m', at) && at <= lo && Strings(m, lo, hi, ps, ss)
    ensures Strings(m', lo, hi, ps, ss)
  {
    forall i | 0 <= i < |ss|
      ensures Holds(m', ps[i], ss[i])
    {
      HoldsAbove(m, m', at, ps[i], ss[i]);
    }
  }

  lemma {:induction false} WordsAbove(m: seq<Byte>, m': seq<Byte>, lo: nat, p: nat, ws: seq<U32>)
    requires Above(m, m', lo) && lo <= p && Words(m, p, ws)
    ensures Words(m', p, ws)
  {
    forall i | 0 <= i < |ws|
      ensures Load32(m', p + 4 * i) == ws[i]
    {
      SameWord(m, m', p + 4 * i);
    }
  }

  lemma {:induction false} WordsJoin(m: seq<Byte>, p: nat, xs: seq<U32>, ys: seq<U32>)
    ensures Words(m, p, xs + ys) <==> Words(m, p, xs) && Words(m, p + 4 * |xs|, ys)
  {
    var ws := xs + ys;
    if Words(m, p, ws) {
      forall i | 0 <= i < |xs|
        ensures Load32(m, p + 4 * i) == xs[i]
      {
        assert ws[i] == xs[i];
      }
      forall i | 0 <= i < |ys|
        ensures Load32(m, p + 4 * |xs| + 4 * i) == ys[i]
      {
        assert ws[|xs| + i] == ys[i];
      }
    }
    if Words(m, p, xs) && Words(m, p + 4 * |xs|, ys) {
      forall i | 0 <= i < |ws|
        ensures Load32(m, p + 4 * i) == ws[i]
      {
        if i >= |xs| {
          assert p + 4 * i == p + 4 * |xs| + 4 * (i - |xs|);
        }
      }
    }
  }

  /** The bytes that strings take with their terminators. */
  function Total(ss: seq<seq<Byte>>): nat {
    if ss == [] then 0 else |ss[0]| + 1 + Total(ss[1..])
  }

  /** The strings before the last i of them take the room that is left to take. */
  lemma {:induction false} TotalSplit(ss: seq<seq<Byte>>, i: nat)
    requires i < |ss|
    ensures Total(ss[i..]) == |ss[i]| + 1 + Total(ss[i + 1..])
  {
    assert ss[i..][1..] == ss[i + 1..];
  }

  lemma {:induction false} TotalPrefix(ss: seq<seq<Byte>>, i: nat)
    requires i <= |ss|
    ensures Total(ss[i..]) <= Total(ss)
  {
    if i == 0 {
      assert ss[0..] == ss;
    } else {
      TotalPrefix(ss[1..], i - 1);
      assert ss[1..][i - 1..] == ss[i..];
    }
  }

  /** metadata_bytes */
  function FrameSize(argc: nat, envc: nat): nat { 4 * (16 + envc + argc + 3) }

  function AlignDown16(x: nat): (r: nat)
    ensures r <= x < r + 16 && r % 16 == 0
  {
    x - x % 16
  }

  /** The auxiliary vector, by rising address: a type and its value each. */
  function Auxv(execfn: U32, entry: U32): (ws: seq<U32>)
    ensures |ws| == 16
  {
    [6, 4096, 11, 0, 12, 0, 13, 0, 14, 0, 9, entry, 31, execfn, 0, 0]
  }

  /** argc, argv, a null pointer, envp, a null pointer, the auxiliary vector. */
  function Frame(ps: seq<U32>, es: seq<U32>, execfn: U32, entry: U32): (ws: seq<U32>)
    requires |ps| < 0x1_0000_0000
    ensures 4 * |ws| == FrameSize(|ps|, |es|)
  {
    [|ps|] + (ps + ([0] + (es + ([0] + Auxv(execfn, entry)))))
  }

  /** The stack at esp presents these strings; the strings lie above the frame. */
  ghost predicate Prepared(m: seq<Byte>, esp: nat, argv: seq<seq<Byte>>, env: seq<seq<Byte>>, exec: seq<Byte>,
                           entry: U32, ps: seq<U32>, es: seq<U32>, execfn: U32)
  {
    var texts := esp + FrameSize(|argv|, |env|);
    && |ps| == |argv| < 0x1_0000_0000 && |es| == |env| && Words(m, esp, Frame(ps, es, execfn, entry))
    && Strings(m, texts, STACK_TOP, ps, argv) && Strings(m, texts, STACK_TOP, es, env)
    && texts <= execfn && Holds(m, execfn, exec)
  }

  /** The stack being built: the memory and the variable `stack`. */
  class Builder {
    var mem: seq<Byte>
    var sp: nat

    ghost predicate Valid()
      reads this
    {
      USER_BASE <= sp <= STACK_TOP <= |mem|
    }

    constructor (mem: seq<Byte>)
      requires STACK_TOP <= |mem|
      ensures Valid() && this.mem == mem && sp == STACK_TOP
    {
      this.mem := mem;
      sp := STACK_TOP;
    }

    /** task_push_bytes */
    method PushBytes(data: seq<Byte>) returns (ok: bool)
      requires Valid()
      modifies this
      ensures Valid() && ok == (USER_BASE + |data| <= old(sp))
      ensures !ok ==> mem == old(mem) && sp == old(sp)
      ensures ok ==> sp == old(sp) - |data| && mem == Put(old(mem), sp, data)
    {
      if sp < USER_BASE + |data| {
        return false;
      }
      sp := sp - |data|;
      mem := Put(mem, sp, data);
      ok := true;
    }

    /** task_push_u32 */
    method PushWord(x: U32) returns (ok: bool)
      requires Valid()
      modifies this
      ensures Valid() && ok == (USER_BASE + 4 <= old(sp))
      ensures !ok ==> mem == old(mem) && sp == old(sp)
      ensures ok ==> sp == old(sp) - 4 && Above(old(mem), mem, old(sp)) && Load32(mem, sp) == x
    {
      ok := PushBytes(Encode(x));
      DecodeEncode(x);
    }

    /** A string with its terminator. */
    method PushString(s: seq<Byte>) returns (ok: bool)
      requires Valid()
      modifies this
      ensures Valid() && ok == (USER_BASE + |s| + 1 <= old(sp))
      ensures !ok ==> mem == old(mem) && sp == old(sp)
      ensures ok ==> sp == old(sp) - |s| - 1 && Above(old(mem), mem, old(sp)) && Holds(mem, sp, s)
    {
      ok := PushBytes(s + [0]);
      if ok {
        assert mem[sp..sp + |s|] == s;
      }
    }

    /** The loops over the environment and the arguments, last string first. */
    method PushStrings(ss: seq<seq<Byte>>) returns (ok: bool, ps: seq<U32>)
      requires Valid()
      modifies this
      ensures Valid() && ok == (USER_BASE + Total(ss) <= old(sp))
      ensures ok ==> sp == old(sp) - Total(ss) && Above(old(mem), mem, old(sp)) && Strings(mem, sp, old(sp), ps, ss)
    {
      ps := [];
      var i := |ss|;
      assert ss[i..] == [];
      while i > 0
        invariant Valid() && 0 <= i <= |ss| && sp == old(sp) - Total(ss[i..])
        invariant Above(old(mem), mem, old(sp)) && Strings(mem, sp, old(sp), ps, ss[i..])
      {
        i := i - 1;
        TotalSplit(ss, i);
        ghost var m, at := mem, sp;
        ok := PushString(ss[i]);
        if !ok {
          TotalPrefix(ss, i);
          return;
        }
        StringsAbove(m, mem, at, old(sp), ps, ss[i + 1..], at);
        ps := [sp] + ps;
        assert ss[i..] == [ss[i]] + ss[i + 1..];
      }
      assert ss[0..] == ss;
      ok := true;
    }

    /** Words, last one first: the auxiliary vector, the pointers, and argc. */
    method PushWords(ws: seq<U32>) returns (ok: bool)
      requires Valid()
      modifies this
      ensures Valid()
      ensures USER_BASE + 4 * |ws| <= old(sp) ==>
        ok && sp == old(sp) - 4 * |ws| && Above(old(mem), mem, old(sp)) && Words(mem, sp, ws)
    {
      var i := |ws|;
      assert ws[i..] == [];
      while i > 0
        invariant Valid() && 0 <= i <= |ws| && sp == old(sp) - 4 * (|ws| - i)
        invariant Above(old(mem), mem, old(sp)) && Words(mem, sp, ws[i..])
      {
        i := i - 1;
        ghost var m, at := mem, sp;
        ok := PushWord(ws[i]);
        if !ok {
          return;
        }
        WordsAbove(m, mem, at, at, ws[i + 1..]);
        WordsJoin(mem, sp, [ws[i]], ws[i + 1..]);
        assert ws[i..] == [ws[i]] + ws[i + 1..];
      }
      assert ws[0..] == ws;
      ok := true;
    }

    /** More words below those that are there. */
    method PushBefore(ws: seq<U32>, ghost tail: seq<U32>)
      requires Valid() && USER_BASE + 4 * |ws| <= sp && Words(mem, sp, tail)
      modifies this
      ensures Valid() && sp == old(sp) - 4 * |ws| && Above(old(mem), mem, old(sp)) && Words(mem, sp, ws + tail)
    {
      ghost var m, at := mem, sp;
      var ok := PushWords(ws);
      WordsAbove(m, mem, at, at, tail);
      WordsJoin(mem, sp, ws, tail);
    }

    /** The second half of task_prepare_user_stack: the frame that ESP points at, 16-byte aligned. */
    method PushFrame(ps: seq<U32>, es: seq<U32>, execfn: U32, entry: U32)
      requires Valid() && |ps| < 0x1_0000_0000 && USER_BASE + FrameSize(|ps|, |es|) <= sp
      modifies this
      ensures Valid() && sp == AlignDown16(old(sp) - FrameSize(|ps|, |es|)) && Above(old(mem), mem, old(sp))
      ensures Words(mem, sp, Frame(ps, es, execfn, entry)) && sp + FrameSize(|ps|, |es|) <= old(sp)
    {
      sp := AlignDown16(sp - FrameSize(|ps|, |es|)) + FrameSize(|ps|, |es|);
      ghost var t := Auxv(execfn, entry);
      assert t + [] == t;
      PushBefore(Auxv(execfn, entry), []);
      PushBefore([0], t);
      t := [0] + t;
      PushBefore(es, t);
      t := es + t;
      PushBefore([0], t);
      t := [0] + t;
      PushBefore(ps, t);
      t := ps + t;
      PushBefore([|ps|], t);
    }

    /** The first half: the environment, the arguments and the path of the program. */
    method PushTexts(argv: seq<seq<Byte>>, env: seq<seq<Byte>>, exec: seq<Byte>)
      returns (ok: bool, ps: seq<U32>, es: seq<U32>, execfn: U32)
      requires Valid()
      modifies this
      ensures Valid() && ok == (USER_BASE + Total(env) + Total(argv) + |exec| + 1 <= old(sp))
      ensures ok ==> sp == old(sp) - Total(env) - Total(argv) - |exec| - 1
      ensures ok ==> Strings(mem, sp, old(sp), ps, argv) && Strings(mem, sp, old(sp), es, env)
      ensures ok ==> sp <= execfn && Holds(mem, execfn, exec)
    {
      ps, execfn := [], 0;
      ok, es := PushStrings(env);
      if !ok {
        return;
      }
      ghost var m, at := mem, sp;
      ok, ps := PushStrings(argv);
      if !ok {
        return;
      }
      StringsAbove(m, mem, at, old(sp), es, env, at);
      m, at := mem, sp;
      ok := PushString(exec);
      if !ok {
        return;
      }
      StringsAbove(m, mem, at, old(sp), es, env, at);
      StringsAbove(m, mem, at, old(sp), ps, argv, at);
      execfn := sp;
    }

    /** task_prepare_user_stack */
    method Prepare(argv: seq<seq<Byte>>, env: seq<seq<Byte>>, exec: seq<Byte>, entry: U32)
      returns (ok: bool, ps: seq<U32>, es: seq<U32>, execfn: U32)
      requires Valid() && sp == STACK_TOP
      modifies this
      ensures ok <==>
        && |argv| <= ARG_MAX
        && Total(env) + Total(argv) + |exec| + 1 + FrameSize(|argv|, |env|) <= STACK_TOP - USER_BASE
      ensures ok ==> Valid() && sp % 16 == 0 && Prepared(mem, sp, argv, env, exec, entry, ps, es, execfn)
    {
      ps, es, execfn := [], [], 0;
      if |argv| > ARG_MAX {
        return false, ps, es, execfn;
      }
      ok, ps, es, execfn := PushTexts(argv, env, exec);
      if !ok {
        return;
      }
      if sp < USER_BASE + FrameSize(|argv|, |env|) {
        return false, ps, es, execfn;
      }
      ghost var m, at := mem, sp;
      PushFrame(ps, es, execfn, entry);
      StringsAbove(m, mem, at, STACK_TOP, es, env, at);
      StringsAbove(m, mem, at, STACK_TOP, ps, argv, at);
      HoldsAbove(m, mem, at, execfn, exec);
    }
  }
}

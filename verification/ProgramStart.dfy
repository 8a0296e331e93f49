/** The start code of a program (user/lib/start.c): it finds argc, argv and envp on the stack and
    copies the strings to a safe place before main runs. */
module ProgramStart {
  import opened Bytes
  import opened UserRange
  import opened UserStack

  const BOOTSTRAP_BYTES := 16384
  const BOOTSTRAP_PTRS := 64

  /** _start: argc, argv and envp from the stack pointer. */
  method FromStack(m: seq<Byte>, esp: nat, ghost ps: seq<U32>, ghost es: seq<U32>, ghost execfn: U32, ghost entry: U32)
    returns (argc: U32, argv: nat, envp: nat)
    requires |ps| < 0x1_0000_0000 && Words(m, esp, Frame(ps, es, execfn, entry))
    ensures argc == |ps| && Words(m, argv, ps + [0]) && Words(m, envp, es + [0])
  {
    var rest := [0] + Auxv(execfn, entry);
    WordsJoin(m, esp, [|ps|], ps + ([0] + (es + rest)));
    assert [|ps|][0] == |ps|;
    assert Load32(m, esp + 4 * 0) == |ps|;
    assert ps + ([0] + (es + rest)) == (ps + [0]) + (es + rest);
    WordsJoin(m, esp + 4, ps + [0], es + rest);
    assert es + rest == (es + [0]) + Auxv(execfn, entry);
    WordsJoin(m, esp + 4 + 4 * (|ps| + 1), es + [0], Auxv(execfn, entry));
    argc := Load32(m, esp);
    argv := esp + 4;
    envp := argv + 4 + 4 * argc;
  }

  /** start_strlen */
  method Strlen(m: seq<Byte>, p: nat, ghost s: seq<Byte>) returns (n: nat)
    requires Holds(m, p, s) && IsText(s)
    ensures n == |s|
  {
    n := 0;
    CharAt(m, p, s, 0);
    while m[p + n] != 0
      invariant n <= |s| && m[p + n] == if n < |s| then s[n] else 0
      decreases |s| - n
    {
      n := n + 1;
      CharAt(m, p, s, n);
    }
  }

  lemma {:induction false} CharAt(m: seq<Byte>, p: nat, s: seq<Byte>, n: nat)
    requires Holds(m, p, s) && n <= |s|
    ensures m[p + n] == if n < |s| then s[n] else 0
  {
    if n < |s| {
      assert m[p..p + |s|][n] == s[n];
    }
  }

  /** What copying keeps: everything below `end`. */
  predicate Below(m: seq<Byte>, m': seq<Byte>, end: nat) {
    |m'| == |m| && forall a :: 0 <= a < end && a < |m| ==> m'[a] == m[a]
  }

  /** The first i strings have been copied, from offset `from` up to `cursor`. */
  ghost predicate Copied(start: seq<Byte>, b: seq<Byte>, from: nat, cursor: nat, out: seq<nat>, ss: seq<seq<Byte>>,
                         i: nat) {
    && i <= |ss| && from <= cursor && Below(start, b, from)
    && cursor + Total(ss[i..]) == from + Total(ss) && Copies(b, cursor, out, ss[..i])
  }

  lemma {:induction false} CopiedNext(start: seq<Byte>, b: seq<Byte>, b': seq<Byte>, from: nat, cursor: nat,
                                      out: seq<nat>, ss: seq<seq<Byte>>, i: nat)
    requires Copied(start, b, from, cursor, out, ss, i) && i < |ss| && Below(b, b', cursor) && Holds(b', cursor, ss[i])
    ensures Copied(start, b', from, cursor + |ss[i]| + 1, out + [cursor], ss, i + 1)
  {
    TotalSplit(ss, i);
    CopiesKept(b, b', cursor, out, ss[..i]);
    assert ss[..i + 1] == ss[..i] + [ss[i]];
  }

  /** bootstrap_bytes with its cursor. */
  class Arena {
    const bytes: array<Byte>
    var cursor: nat

    ghost predicate Valid()
      reads this
    {
      bytes.Length == BOOTSTRAP_BYTES && cursor <= bytes.Length
    }

    constructor ()
      ensures Valid() && cursor == 0 && fresh(bytes)
    {
      bytes := new Byte[BOOTSTRAP_BYTES];
      cursor := 0;
    }

    /** start_copy_string */
    method CopyString(m: seq<Byte>, p: nat, ghost s: seq<Byte>) returns (ok: bool, at: nat)
      requires Valid() && Holds(m, p, s) && IsText(s)
      modifies this, bytes
      ensures Valid() && ok == (|s| + 1 <= BOOTSTRAP_BYTES - old(cursor))
      ensures Below(old(bytes[..]), bytes[..], old(cursor))
      ensures ok ==> cursor == old(cursor) + |s| + 1 && at == old(cursor) && Holds(bytes[..], at, s)
      ensures !ok ==> cursor == old(cursor)
    {
      at := cursor;
      var length := Strlen(m, p, s);
      length := length + 1;
      if BOOTSTRAP_BYTES - cursor < length {
        return false, at;
      }
      var i := 0;
      while i < length
        invariant 0 <= i <= length && cursor == at == old(cursor) && Valid() && Below(old(bytes[..]), bytes[..], at)
        invariant bytes[cursor..cursor + i] == m[p..p + i]
      {
        bytes[cursor + i] := m[p + i];
        i := i + 1;
      }
      assert bytes[..][at..at + |s|] == m[p..p + length][..|s|] && bytes[at..at + length][|s|] == 0;
      assert m[p..p + length][..|s|] == m[p..p + |s|];
      cursor := cursor + length;
      ok := true;
    }

    /** One of the copying loops of start_copy_vectors, from the vector at p. */
    method CopyAll(m: seq<Byte>, p: nat, n: nat, ghost ps: seq<U32>, ghost ss: seq<seq<Byte>>)
      returns (ok: bool, out: seq<nat>)
      requires Valid() && n == |ps| && Words(m, p, ps + [0]) && Strings(m, 0, |m|, ps, ss) && Texts(ss)
      modifies this, bytes
      ensures Valid() && ok == (Total(ss) <= BOOTSTRAP_BYTES - old(cursor))
      ensures Below(old(bytes[..]), bytes[..], old(cursor))
      ensures ok ==> cursor == old(cursor) + Total(ss) && Copies(bytes[..], cursor, out, ss)
    {
      ghost var start, from := bytes[..], cursor;
      out := [];
      var i := 0;
      assert ss[0..] == ss && ss[..0] == [];
      while i < n
        invariant 0 <= i <= n == |ss| && Valid() && Copied(start, bytes[..], from, cursor, out, ss, i)
      {
        ok, out := CopyNext(m, p, i, out, ps, ss, start, from);
        if !ok {
          return;
        }
        i := i + 1;
      }
      assert ss[..i] == ss;
      ok := true;
    }

    /** One round of it. */
    method CopyNext(m: seq<Byte>, p: nat, i: nat, out: seq<nat>, ghost ps: seq<U32>, ghost ss: seq<seq<Byte>>,
                    ghost start: seq<Byte>, ghost from: nat)
      returns (ok: bool, out': seq<nat>)
      requires Valid() && i < |ps| && Words(m, p, ps + [0]) && Strings(m, 0, |m|, ps, ss) && Texts(ss)
      requires Copied(start, bytes[..], from, cursor, out, ss, i)
      modifies this, bytes
      ensures Valid() && ok == (|ss[i]| + 1 <= BOOTSTRAP_BYTES - old(cursor)) && Below(start, bytes[..], from)
      ensures Total(ss[i..]) >= |ss[i]| + 1
      ensures ok ==> Copied(start, bytes[..], from, cursor, out', ss, i + 1)
    {
      out' := out;
      TotalSplit(ss, i);
      assert (ps + [0])[i] == ps[i];
      ghost var before := bytes[..];
      var at;
      ok, at := CopyString(m, Load32(m, p + 4 * i), ss[i]);
      if ok {
        CopiedNext(start, before, bytes[..], from, old(cursor), out, ss, i);
        out' := out + [at];
      }
    }
  }

  /** The loop that counts the environment, which gives up when the table would be too small. */
  method CountEnv(m: seq<Byte>, envp: nat, ghost es: seq<U32>) returns (ok: bool, n: nat)
    requires Words(m, envp, es + [0]) && 0 !in es
    ensures ok == (|es| + 1 < BOOTSTRAP_PTRS) && (ok ==> n == |es|)
  {
    n := 0;
    assert Load32(m, envp + 4 * n) == (es + [0])[n];
    while Load32(m, envp + 4 * n) != 0
      invariant n <= |es| && n + 1 < BOOTSTRAP_PTRS && Load32(m, envp + 4 * n) == (es + [0])[n]
      decreases |es| - n
    {
      n := n + 1;
      if n + 1 >= BOOTSTRAP_PTRS {
        return false, n;
      }
    }
    ok := true;
  }

  /** start_copy_vectors */
  method CopyVectors(arena: Arena, m: seq<Byte>, argc: nat, argv: nat, envp: nat,
                     ghost ps: seq<U32>, ghost es: seq<U32>, ghost args: seq<seq<Byte>>, ghost envs: seq<seq<Byte>>)
    returns (ok: bool, argvOut: seq<nat>, envpOut: seq<nat>)
    requires arena.Valid() && arena.cursor == 0 && argc == |ps| && 0 !in es
    requires Words(m, argv, ps + [0]) && Strings(m, 0, |m|, ps, args) && Texts(args)
    requires Words(m, envp, es + [0]) && Strings(m, 0, |m|, es, envs) && Texts(envs)
    modifies arena, arena.bytes
    ensures ok <==>
      |args| + 1 < BOOTSTRAP_PTRS && |envs| + 1 < BOOTSTRAP_PTRS && Total(args) + Total(envs) <= BOOTSTRAP_BYTES
    ensures ok ==>
      Copies(arena.bytes[..], BOOTSTRAP_BYTES, argvOut, args) && Copies(arena.bytes[..], BOOTSTRAP_BYTES, envpOut, envs)
  {
    argvOut, envpOut := [], [];
    if argc + 1 >= BOOTSTRAP_PTRS {
      return false, argvOut, envpOut;
    }
    var envc;
    ok, envc := CountEnv(m, envp, es);
    if !ok {
      return;
    }
    ok, argvOut := arena.CopyAll(m, argv, argc, ps, args);
    if !ok {
      return;
    }
    ghost var before, end := arena.bytes[..], arena.cursor;
    ok, envpOut := arena.CopyAll(m, envp, envc, es, envs);
    if !ok {
      return;
    }
    CopiesKept(before, arena.bytes[..], end, argvOut, args);
  }

  /** The strings that main finds behind a vector of pointers. */
  method Seen(m: seq<Byte>, ps: seq<nat>, ghost ss: seq<seq<Byte>>) returns (out: seq<seq<Byte>>)
    requires |ps| == |ss| && Texts(ss) && forall i :: 0 <= i < |ss| ==> Holds(m, ps[i], ss[i])
    ensures out == ss
  {
    out := [];
    var i := 0;
    while i < |ps|
      invariant 0 <= i <= |ps| && out == ss[..i]
    {
      var n := Strlen(m, ps[i], ss[i]);
      out := out + [m[ps[i]..ps[i] + n]];
      assert ss[..i + 1] == ss[..i] + [ss[i]];
      i := i + 1;
    }
  }

  /** The pointers themselves. */
  method Pointers(m: seq<Byte>, p: nat, n: nat, ghost ps: seq<U32>) returns (out: seq<nat>)
    requires Words(m, p, ps + [0]) && n == |ps|
    ensures out == ps
  {
    out := [];
    var i := 0;
    while i < n
      invariant 0 <= i <= n && out == ps[..i]
    {
      assert (ps + [0])[i] == ps[i];
      out := out + [Load32(m, p + 4 * i)];
      i := i + 1;
    }
  }

  /** start_c: the strings that main gets, from the copies if they fit, else from the stack. */
  method StartC(m: seq<Byte>, esp: nat, ghost args: seq<seq<Byte>>, ghost envs: seq<seq<Byte>>, ghost exec: seq<Byte>,
                ghost entry: U32, ghost ps: seq<U32>, ghost es: seq<U32>, ghost execfn: U32)
    returns (argc: U32, argv: seq<seq<Byte>>, envp: seq<seq<Byte>>)
    requires USER_BASE <= esp && STACK_TOP <= |m| && Prepared(m, esp, args, envs, exec, entry, ps, es, execfn)
    requires Texts(args) && Texts(envs)
    ensures argc == |args| && argv == args && envp == envs
  {
    var argvAt, envpAt;
    argc, argvAt, envpAt := FromStack(m, esp, ps, es, execfn, entry);
    var arena := new Arena();
    var ok, argvOut, envpOut := CopyVectors(arena, m, argc, argvAt, envpAt, ps, es, args, envs);
    if ok {
      argv := Seen(arena.bytes[..], argvOut, args);
      envp := Seen(arena.bytes[..], envpOut, envs);
    } else {
      var pointers := Pointers(m, argvAt, argc, ps);
      argv := Seen(m, pointers, args);
      var envc := Length(m, envpAt, es);
      pointers := Pointers(m, envpAt, envc, es);
      envp := Seen(m, pointers, envs);
    }
  }

  /** main walks envp to its null pointer. */
  method Length(m: seq<Byte>, envp: nat, ghost es: seq<U32>) returns (n: nat)
    requires Words(m, envp, es + [0]) && 0 !in es
    ensures n == |es|
  {
    n := 0;
    assert Load32(m, envp + 4 * n) == (es + [0])[n];
    while Load32(m, envp + 4 * n) != 0
      invariant n <= |es| && Load32(m, envp + 4 * n) == (es + [0])[n]
      decreases |es| - n
    {
      n := n + 1;
    }
  }

  /** From the kernel to main: the program gets exactly the strings it was started with, and it is
      started exactly when they fit. */
  method Launch(mem: seq<Byte>, args: seq<seq<Byte>>, envs: seq<seq<Byte>>, exec: seq<Byte>, entry: U32)
    returns (ok: bool, argc: U32, argv: seq<seq<Byte>>, envp: seq<seq<Byte>>)
    requires STACK_TOP <= |mem| && Texts(args) && Texts(envs)
    ensures ok <==>
      && |args| <= ARG_MAX
      && Total(envs) + Total(args) + |exec| + 1 + FrameSize(|args|, |envs|) <= STACK_TOP - USER_BASE
    ensures ok ==> argc == |args| && argv == args && envp == envs
  {
    argc, argv, envp := 0, [], [];
    var b := new Builder(mem);
    var ps, es, execfn;
    ok, ps, es, execfn := b.Prepare(args, envs, exec, entry);
    if ok {
      argc, argv, envp := StartC(b.mem, b.sp, args, envs, exec, entry, ps, es, execfn);
    }
  }

  ghost predicate Texts(ss: seq<seq<Byte>>) { forall i :: 0 <= i < |ss| ==> IsText(ss[i]) }

  /** Copies of the strings at these offsets, all below `end`. */
  predicate Copies(m: seq<Byte>, end: nat, ps: seq<nat>, ss: seq<seq<Byte>>) {
    |ps| == |ss| && forall i :: 0 <= i < |ss| ==> ps[i] + |ss[i]| < end && Holds(m, ps[i], ss[i])
  }

  lemma {:induction false} CopiesKept(m: seq<Byte>, m': seq<Byte>, end: nat, ps: seq<nat>, ss: seq<seq<Byte>>)
    requires Copies(m, end, ps, ss) && Below(m, m', end)
    ensures Copies(m', end, ps, ss)
  {
    forall i | 0 <= i < |ss|
      ensures Holds(m', ps[i], ss[i])
    {
      assert m'[ps[i]..ps[i] + |ss[i]|] == m[ps[i]..ps[i] + |ss[i]|];
    }
  }
}

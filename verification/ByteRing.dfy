/** The wrapping buffer behind pipes and sockets (src/pipe.c, src/socket.c): a queue of at most
    one byte less than its size, whatever the size. */
module ByteRing {
  import opened Bytes

  predicate InRing(b: seq<Byte>, head: int, tail: int) { 0 <= head < |b| && 0 <= tail < |b| }

  /** The queued bytes, oldest first. */
  function Queue(b: seq<Byte>, head: nat, tail: nat): seq<Byte>
    requires InRing(b, head, tail)
  {
    if head <= tail then b[head..tail] else b[head..] + b[..tail]
  }

  /** The index after the last one is 0. */
  function Wrapped(i: nat, size: nat): nat { if i == size then 0 else i }

  lemma {:induction false} WrapsOnce(i: nat, size: nat)
    requires i <= size && size > 0
    ensures i % size == Wrapped(i, size)
  {
    if i == size {
      assert size % size == 0;
    }
  }

  /** The remainder by which the source moves an index on. */
  method Advance(i: nat, size: nat) returns (r: nat)
    requires i <= size && size > 0
    ensures r == Wrapped(i, size)
  {
    WrapsOnce(i, size);
    r := i % size;
  }

  /** One memcpy of d into the ring, up to its end, and the tail moved on. */
  lemma {:induction false} PutChunk(b: seq<Byte>, b': seq<Byte>, head: nat, tail: nat, d: seq<Byte>)
    requires InRing(b, head, tail) && tail + |d| <= |b| && |Queue(b, head, tail)| + |d| < |b|
    requires SameBut(b, b', tail, |d|) && b'[tail..tail + |d|] == d
    ensures var tail' := Wrapped(tail + |d|, |b|);
      InRing(b', head, tail') && Queue(b', head, tail') == Queue(b, head, tail) + d
  {
    if head > tail {
      PutBelow(b, b', head, tail, d);
    } else {
      PutAbove(b, b', head, tail, d);
    }
  }

  /** The queue wraps: the chunk goes between its end and its start. */
  lemma {:induction false} PutBelow(b: seq<Byte>, b': seq<Byte>, head: nat, tail: nat, d: seq<Byte>)
    requires InRing(b, head, tail) && tail < head && tail + |d| < head && |b'| == |b|
    requires SameBut(b, b', tail, |d|) && b'[tail..tail + |d|] == d
    ensures b'[head..] + b'[..tail + |d|] == b[head..] + b[..tail] + d
  {
    Kept(b, b', head, |b|);
    Kept(b, b', 0, tail);
    Joined(b', 0, tail, tail + |d|);
    Assoc(b[head..], b[..tail], d);
  }

  /** It does not: the chunk goes behind it, at most up to the end of the buffer. */
  lemma {:induction false} PutAbove(b: seq<Byte>, b': seq<Byte>, head: nat, tail: nat, d: seq<Byte>)
    requires InRing(b, head, tail) && head <= tail && tail + |d| <= |b| == |b'|
    requires SameBut(b, b', tail, |d|) && b'[tail..tail + |d|] == d
    ensures b'[head..tail + |d|] == b[head..tail] + d
    ensures tail + |d| == |b| ==> b'[head..] + b'[..0] == b[head..tail] + d
  {
    Kept(b, b', head, tail);
    Joined(b', head, tail, tail + |d|);
    assert b'[..0] == [];
  }

  lemma {:induction false} Joined(b: seq<Byte>, i: nat, j: nat, k: nat)
    requires i <= j <= k <= |b|
    ensures b[i..k] == b[i..j] + b[j..k]
  {
  }

  lemma {:induction false} Kept(b: seq<Byte>, b': seq<Byte>, lo: nat, hi: nat)
    requires lo <= hi <= |b| == |b'| && forall i :: lo <= i < hi ==> b'[i] == b[i]
    ensures b'[lo..hi] == b[lo..hi]
  {
  }

  lemma {:induction false} Assoc(x: seq<Byte>, y: seq<Byte>, z: seq<Byte>)
    ensures x + y + z == x + (y + z)
  {
  }

  /** One memcpy out of the ring, up to its end, and the head moved on. */
  lemma {:induction false} TakeChunk(b: seq<Byte>, head: nat, tail: nat, n: nat)
    requires InRing(b, head, tail) && n <= |Queue(b, head, tail)| && head + n <= |b|
    ensures var head' := Wrapped(head + n, |b|);
      InRing(b, head', tail) && Queue(b, head, tail) == b[head..head + n] + Queue(b, head', tail)
  {
  }

  /** Of queue q, `data` has been read, and the rest starts at h. */
  ghost predicate Peeked(b: seq<Byte>, h: nat, tail: nat, data: seq<Byte>, q: seq<Byte>) {
    InRing(b, h, tail) && |data| <= |q| && q[..|data|] == data && q[|data|..] == Queue(b, h, tail)
  }

  /** One round. */
  lemma {:induction false} PeekOn(b: seq<Byte>, h: nat, tail: nat, n: nat, data: seq<Byte>, q: seq<Byte>)
    requires Peeked(b, h, tail, data, q) && |data| + n <= |q| && h + n <= |b|
    ensures Peeked(b, Wrapped(h + n, |b|), tail, data + b[h..h + n], q)
  {
    TakeChunk(b, h, tail, n);
    var d, rest := b[h..h + n], Queue(b, Wrapped(h + n, |b|), tail);
    assert q == data + q[|data|..];
    Assoc(data, d, rest);
    assert q == (data + d) + rest;
  }

  /** The queue q with the first n bytes of data appended. */
  function Appended(q: seq<Byte>, data: seq<Byte>, n: nat): seq<Byte>
    requires n <= |data|
  {
    q + data[..n]
  }

  lemma {:induction false} WriteOn(q: seq<Byte>, data: seq<Byte>, i: nat, j: nat)
    requires i <= j <= |data|
    ensures Appended(q, data, i) + data[i..j] == Appended(q, data, j)
    ensures |Appended(q, data, i)| == |q| + i
  {
    assert data[..i] + data[i..j] == data[..j];
    Assoc(q, data[..i], data[i..j]);
  }

  class Ring {
    const buf: array<Byte>
    var head: nat
    var tail: nat

    ghost predicate Valid()
      reads this, buf
    {
      InRing(buf[..], head, tail)
    }

    ghost function Contents(): (q: seq<Byte>)
      requires Valid()
      reads this, buf
      ensures |q| < buf.Length
    {
      Queue(buf[..], head, tail)
    }

    constructor (size: nat)
      requires size > 0
      ensures Valid() && Contents() == [] && buf.Length == size && fresh(buf)
    {
      buf := new Byte[size];
      head, tail := 0, 0;
    }

    /** pipe_buffer_used, socket_buffer_used */
    function Used(): (n: nat)
      requires Valid()
      reads this, buf
      ensures n == |Contents()|
    {
      if tail >= head then tail - head else buf.Length - head + tail
    }

    /** pipe_buffer_available, socket_buffer_available */
    function Available(): (n: nat)
      requires Valid()
      reads this, buf
      ensures n == buf.Length - 1 - |Contents()|
    {
      buf.Length - Used() - 1
    }

    /** memcpy of a chunk to the tail. */
    method Store(d: seq<Byte>)
      requires Valid() && tail + |d| <= buf.Length && |Contents()| + |d| < buf.Length
      modifies this`tail, buf
      ensures Valid() && Contents() == old(Contents()) + d
    {
      ghost var b := buf[..];
      forall i | 0 <= i < |d| {
        buf[tail + i] := d[i];
      }
      assert buf[..][tail..tail + |d|] == d;
      PutChunk(b, buf[..], head, tail, d);
      tail := Advance(tail + |d|, buf.Length);
    }

    /** One round of the writing loop: the bytes from i to j. */
    method StorePart(data: seq<Byte>, i: nat, j: nat, ghost q: seq<Byte>)
      requires Valid() && i <= j <= |data| && Contents() == Appended(q, data, i)
      requires tail + j - i <= buf.Length && |q| + j < buf.Length
      modifies this`tail, buf
      ensures Valid() && Contents() == Appended(q, data, j)
    {
      WriteOn(q, data, i, j);
      Store(data[i..j]);
    }

    /** pipe_buffer_write, socket_buffer_write */
    method Write(data: seq<Byte>) returns (written: nat)
      requires Valid()
      modifies this`tail, buf
      ensures Valid() && written == if |data| < old(Available()) then |data| else old(Available())
      ensures Contents() == old(Contents()) + data[..written]
    {
      var available := Available();
      ghost var q := Contents();
      written := 0;
      assert Appended(q, data, 0) == q;
      if available == 0 {
        return;
      }
      var toWrite := if |data| > available then available else |data|;
      while written < toWrite
        invariant Valid() && written <= toWrite && Contents() == Appended(q, data, written)
        decreases toWrite - written
      {
        var chunk := buf.Length - tail;
        if chunk > toWrite - written {
          chunk := toWrite - written;
        }
        StorePart(data, written, written + chunk, q);
        written := written + chunk;
      }
    }

    /** memcpy of a chunk from the head. */
    method Load(n: nat) returns (d: seq<Byte>)
      requires Valid() && n <= |Contents()| && head + n <= buf.Length
      modifies this`head
      ensures Valid() && |d| == n && old(Contents()) == d + Contents()
    {
      TakeChunk(buf[..], head, tail, n);
      d := buf[head..head + n];
      head := Advance(head + n, buf.Length);
    }

    /** pipe_buffer_read, socket_buffer_read */
    method Read(length: nat) returns (data: seq<Byte>)
      requires Valid()
      modifies this`head
      ensures Valid() && |data| == (if length < |old(Contents())| then length else |old(Contents())|)
      ensures old(Contents()) == data + Contents()
    {
      var available := Used();
      data := [];
      if available == 0 {
        return;
      }
      var toRead := if length > available then available else length;
      while |data| < toRead
        invariant Valid() && |data| <= toRead && old(Contents()) == data + Contents()
        decreases toRead - |data|
      {
        var chunk := buf.Length - head;
        if chunk > toRead - |data| {
          chunk := toRead - |data|;
        }
        var bytes := Load(chunk);
        Assoc(data, bytes, Contents());
        data := data + bytes;
      }
    }

    /** One round of the peeking loop. */
    method PeekPart(h: nat, n: nat, data: seq<Byte>, ghost q: seq<Byte>) returns (h': nat, data': seq<Byte>)
      requires Peeked(buf[..], h, tail, data, q) && |data| + n <= |q| && h + n <= buf.Length
      ensures Peeked(buf[..], h', tail, data', q) && |data'| == |data| + n
    {
      PeekOn(buf[..], h, tail, n, data, q);
      data' := data + buf[h..h + n];
      h' := Advance(h + n, buf.Length);
    }

    /** The MSG_PEEK branch of socket_recv. */
    method Peek(length: nat) returns (data: seq<Byte>)
      requires Valid()
      ensures |data| == (if length < |Contents()| then length else |Contents()|) && data <= Contents()
    {
      var available := Used();
      data := [];
      var toRead := if length > available then available else length;
      var h := head;
      ghost var q := Contents();
      while |data| < toRead
        invariant Peeked(buf[..], h, tail, data, q) && |data| <= toRead
        decreases toRead - |data|
      {
        var chunk := buf.Length - h;
        if chunk > toRead - |data| {
          chunk := toRead - |data|;
        }
        h, data := PeekPart(h, chunk, data, q);
      }
    }
  }
}

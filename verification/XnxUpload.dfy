/** Pixel uploads in the XNX protocol: the client cuts a rectangle into messages of whole rows
    (user/lib/xnx/xnx.c), the compositor writes each of them, clipped, into the surface
    (user/xnx/compositor.c). */
module XnxUpload {
  import opened Bytes

  /** What a message holds besides struct xnx_write_buffer. */
  const MAX_PIXEL_BYTES := 65536 - 20

  type Rows = seq<seq<U32>>

  /** XNX_WRITE_BUFFER: the rows of a rectangle whose corner is (x, y). */
  datatype Chunk = Chunk(x: U32, y: U32, width: U32, rows: Rows)

  predicate Rectangle(rows: Rows, width: nat) { forall i :: 0 <= i < |rows| ==> |rows[i]| == width }

  /** One pixel of the surface after the rectangle has been written over it. */
  function Pixel(was: U32, x: int, y: int, width: nat, rows: Rows, r: int, c: int): U32
    requires Rectangle(rows, width)
  {
    if y <= r < y + |rows| && x <= c < x + width then rows[r - y][c - x] else was
  }

  predicate Good(m: Chunk) { Rectangle(m.rows, m.width) }
  predicate AllGood(ms: seq<Chunk>) { forall i :: 0 <= i < |ms| ==> Good(ms[i]) }

  /** ... and after a list of messages. */
  function Final(was: U32, ms: seq<Chunk>, r: int, c: int): U32
    requires AllGood(ms)
    decreases |ms|
  {
    if ms == [] then was
    else
      var m := ms[0];
      Final(Pixel(was, m.x, m.y, m.width, m.rows, r, c), ms[1..], r, c)
  }

  /** handle_write_buffer on a surface of this client. */
  method HandleWrite(dst: array2<U32>, m: Chunk)
    requires Good(m)
    modifies dst
    ensures forall r, c :: 0 <= r < dst.Length0 && 0 <= c < dst.Length1 ==>
      dst[r, c] == Pixel(old(dst[r, c]), m.x, m.y, m.width, m.rows, r, c)
  {
    var width, height := m.width, |m.rows|;
    if width == 0 || height == 0 {
      return;
    }
    if m.x >= dst.Length1 || m.y >= dst.Length0 {
      return;
    }
    if width > dst.Length1 - m.x {
      width := dst.Length1 - m.x;
    }
    if height > dst.Length0 - m.y {
      height := dst.Length0 - m.y;
    }
    var row := 0;
    while row < height
      invariant 0 <= row <= height
      invariant forall r, c :: 0 <= r < dst.Length0 && 0 <= c < dst.Length1 ==>
        dst[r, c] == Pixel(old(dst[r, c]), m.x, m.y, m.width, m.rows[..row], r, c)
    {
      forall c | 0 <= c < width {
        dst[m.y + row, m.x + c] := m.rows[row][c];
      }
      row := row + 1;
    }
  }

  // ----- the client -----

  /** A sum cut to 32 bits. */
  function Low32(y: nat): U32 { if y < WORD then y else Low32(y - WORD) }

  /** The messages of an upload with n rows each; y + row is a 32-bit sum. */
  function Chunks(x: U32, y: nat, width: U32, rows: Rows, n: nat): (ms: seq<Chunk>)
    requires n > 0 && Rectangle(rows, width)
    ensures AllGood(ms)
    decreases |rows|
  {
    if rows == [] then []
    else
      var k := Min(n, |rows|);
      [Chunk(x, Low32(y), width, rows[..k])] + Chunks(x, y + k, width, rows[k..], n)
  }

  /** One pixel after the first message, and after those that follow. */
  lemma {:induction false} FirstChunk(was: U32, x: U32, y: nat, width: U32, rows: Rows, n: nat, r: int, c: int)
    requires n > 0 && Rectangle(rows, width) && rows != []
    ensures var k := Min(n, |rows|);
      Final(was, Chunks(x, y, width, rows, n), r, c) ==
      Final(Pixel(was, x, Low32(y), width, rows[..k], r, c), Chunks(x, y + k, width, rows[k..], n), r, c)
  {
    var k := Min(n, |rows|);
    assert Chunks(x, y, width, rows, n)[1..] == Chunks(x, y + k, width, rows[k..], n);
  }

  /** The same, message by message as the rows are cut off. */
  function Landed(was: U32, x: int, y: nat, width: nat, rows: Rows, n: nat, r: int, c: int): U32
    requires n > 0 && Rectangle(rows, width)
    decreases |rows|
  {
    if rows == [] then was
    else
      var k := Min(n, |rows|);
      Landed(Pixel(was, x, Low32(y), width, rows[..k], r, c), x, y + k, width, rows[k..], n, r, c)
  }

  lemma {:induction false} FinalIsLanded(was: U32, x: U32, y: nat, width: U32, rows: Rows, n: nat, r: int, c: int)
    requires n > 0 && Rectangle(rows, width)
    ensures Final(was, Chunks(x, y, width, rows, n), r, c) == Landed(was, x, y, width, rows, n, r, c)
    decreases |rows|
  {
    if rows != [] {
      var k := Min(n, |rows|);
      FirstChunk(was, x, y, width, rows, n, r, c);
      FinalIsLanded(Pixel(was, x, Low32(y), width, rows[..k], r, c), x, y + k, width, rows[k..], n, r, c);
    }
  }

  /** The first message and the rest. */
  lemma {:induction false} ChunksHead(x: U32, y: nat, width: U32, rows: Rows, n: nat, k: nat, rest: Rows)
    requires n > 0 && Rectangle(rows, width) && rows != [] && k == Min(n, |rows|) && rest == rows[k..]
    ensures Chunks(x, y, width, rows, n) == [Chunk(x, Low32(y), width, rows[..k])] + Chunks(x, y + k, width, rest, n)
  {
  }

  /** The messages ms and those for the rows left make up `all`. */
  ghost predicate Sent(x: U32, y: nat, width: U32, left: Rows, n: nat, ms: seq<Chunk>, all: seq<Chunk>) {
    n > 0 && Rectangle(left, width) && ms + Chunks(x, y, width, left, n) == all
  }

  /** One message more. */
  lemma {:induction false} SendOn(x: U32, y: nat, width: U32, left: Rows, n: nat, ms: seq<Chunk>, all: seq<Chunk>,
                                  k: nat)
    requires Sent(x, y, width, left, n, ms, all) && left != [] && k == Min(n, |left|)
    ensures Sent(x, y + k, width, left[k..], n, ms + [Chunk(x, Low32(y), width, left[..k])], all)
  {
    ChunksHead(x, y, width, left, n, k, left[k..]);
    var m, rest := Chunk(x, Low32(y), width, left[..k]), Chunks(x, y + k, width, left[k..], n);
    assert ms + ([m] + rest) == ms + [m] + rest;
  }

  /** One round of the loop: the next rows, as many as fit. */
  method SendChunk(x: U32, y: nat, width: U32, rows: Rows, row: nat, n: nat, ms: seq<Chunk>, ghost all: seq<Chunk>)
    returns (row': nat, ms': seq<Chunk>)
    requires row < |rows| && Sent(x, y + row, width, rows[row..], n, ms, all)
    ensures row < row' <= |rows| && Sent(x, y + row', width, rows[row'..], n, ms', all)
  {
    var k := Min(n, |rows| - row);
    SendOn(x, y + row, width, rows[row..], n, ms, all, k);
    assert rows[row..][..k] == rows[row..row + k] && rows[row..][k..] == rows[row + k..];
    row', ms' := row + k, ms + [Chunk(x, Low32(y + row), width, rows[row..row + k])];
  }

  /** The loop of xnx_write_buffer. */
  method SendRows(x: U32, y: U32, width: U32, rows: Rows, n: nat) returns (ms: seq<Chunk>)
    requires n > 0 && Rectangle(rows, width)
    ensures ms == Chunks(x, y, width, rows, n)
  {
    ms := [];
    var row := 0;
    ghost var all := Chunks(x, y, width, rows, n);
    assert rows[0..] == rows && [] + all == all;
    while row < |rows|
      invariant row <= |rows| && Sent(x, y + row, width, rows[row..], n, ms, all)
    {
      row, ms := SendChunk(x, y, width, rows, row, n, ms, all);
    }
    assert rows[row..] == [] && ms + [] == ms;
  }

  /** xnx_write_buffer on a rectangle of whole rows: the messages sent, or none on an error. */
  method Upload(x: U32, y: U32, width: U32, rows: Rows) returns (ok: bool, ms: seq<Chunk>)
    requires Rectangle(rows, width) && |rows| < WORD && 4 * width < WORD
    ensures ok <==> width == 0 || rows == [] || 4 * width <= MAX_PIXEL_BYTES
    ensures ms == if ok && width != 0 && rows != [] then Chunks(x, y, width, rows, RowsPerChunk(width)) else []
    ensures forall i :: 0 <= i < |ms| ==> 4 * width * |ms[i].rows| <= MAX_PIXEL_BYTES
  {
    ms := [];
    var rowBytes := 4 * width;
    if width == 0 || |rows| == 0 {
      return true, ms;
    }
    if rowBytes > MAX_PIXEL_BYTES {
      return false, ms;
    }
    var n := MAX_PIXEL_BYTES / rowBytes;
    RowsFit(rowBytes);
    ms := SendRows(x, y, width, rows, n);
    ChunksSmall(x, y, width, rows, n);
    forall i | 0 <= i < |ms|
      ensures rowBytes * |ms[i].rows| <= MAX_PIXEL_BYTES
    {
      Scaled(rowBytes, |ms[i].rows|, n);
    }
    ok := true;
  }

  lemma {:induction false} RowsFit(b: nat)
    requires 0 < b <= MAX_PIXEL_BYTES
    ensures MAX_PIXEL_BYTES / b >= 1 && b * (MAX_PIXEL_BYTES / b) <= MAX_PIXEL_BYTES
  {
    var q := MAX_PIXEL_BYTES / b;
    assert MAX_PIXEL_BYTES == b * q + MAX_PIXEL_BYTES % b;
    assert q == 0 ==> b * q == 0;
  }

  lemma {:induction false} ChunksSmall(x: U32, y: nat, width: U32, rows: Rows, n: nat)
    requires n > 0 && Rectangle(rows, width)
    ensures forall m :: m in Chunks(x, y, width, rows, n) ==> |m.rows| <= n
    decreases |rows|
  {
    if rows != [] {
      var k := Min(n, |rows|);
      ChunksSmall(x, y + k, width, rows[k..], n);
    }
  }

  lemma {:induction false} Scaled(b: nat, i: nat, n: nat)
    requires i <= n
    ensures b * i <= b * n
  {
  }

  /** Every chunk that starts at 2^32 or beyond lands, wrapped, below the surface's h rows. */
  predicate Harmless(y: nat, count: nat, n: nat, h: nat)
    requires n > 0
    decreases count
  {
    count == 0 || ((y < WORD || Low32(y) >= h) && Harmless(y + Min(n, count), count - Min(n, count), n, h))
  }

  /** A rectangle that ends by 2^32 is harmless. */
  lemma {:induction false} NoWrapHarmless(y: nat, count: nat, n: nat, h: nat)
    requires n > 0 && y + count <= WORD
    ensures Harmless(y, count, n, h)
    decreases count
  {
    if count > 0 {
      NoWrapHarmless(y + Min(n, count), count - Min(n, count), n, h);
    }
  }

  /** Two parts of a rectangle, one below the other. */
  lemma {:induction false} TwoParts(was: U32, x: int, y: int, width: nat, rows: Rows, k: nat, r: int, c: int)
    requires Rectangle(rows, width) && k <= |rows|
    ensures Pixel(Pixel(was, x, y, width, rows[..k], r, c), x, y + k, width, rows[k..], r, c) ==
      Pixel(was, x, y, width, rows, r, c)
  {
  }

  /** The messages together are one write of the whole rectangle. */
  lemma {:induction false} ChunkedIsWhole(was: U32, x: int, y: nat, width: nat, rows: Rows, n: nat, h: nat, r: nat,
                                          c: nat)
    requires n > 0 && Rectangle(rows, width) && r < h < WORD && Harmless(y, |rows|, n, h)
    ensures Landed(was, x, y, width, rows, n, r, c) == Pixel(was, x, y, width, rows, r, c)
    decreases |rows|
  {
    if rows != [] {
      var k := Min(n, |rows|);
      var rest := rows[k..];
      HarmlessRest(y, |rows|, n, h, k);
      var first := FirstInPlace(was, x, y, width, rows, n, h, r, c, k, rest);
      ChunkedIsWhole(first, x, y + k, width, rest, n, h, r, c);
    }
  }

  /** The first chunk is written where it belongs, and the rest goes on from there. */
  lemma {:induction false} FirstInPlace(was: U32, x: int, y: nat, width: nat, rows: Rows, n: nat, h: nat, r: nat,
                                        c: nat, k: nat, rest: Rows) returns (first: U32)
    requires n > 0 && Rectangle(rows, width) && rows != [] && r < h < WORD && (y < WORD || Low32(y) >= h)
    requires k == Min(n, |rows|) && rest == rows[k..]
    ensures Landed(was, x, y, width, rows, n, r, c) == Landed(first, x, y + k, width, rest, n, r, c)
    ensures Pixel(first, x, y + k, width, rest, r, c) == Pixel(was, x, y, width, rows, r, c)
  {
    first := Pixel(was, x, y, width, rows[..k], r, c);
    WrittenInPlace(was, x, y, width, rows[..k], h, r, c);
    TwoParts(was, x, y, width, rows, k, r, c);
  }

  lemma {:induction false} HarmlessRest(y: nat, count: nat, n: nat, h: nat, k: nat)
    requires n > 0 && count > 0 && k == Min(n, count)
    ensures Harmless(y, count, n, h) <==> (y < WORD || Low32(y) >= h) && Harmless(y + k, count - k, n, h)
  {
  }

  /** A chunk that does not wrap onto the surface is written where it belongs. */
  lemma {:induction false} WrittenInPlace(was: U32, x: int, y: nat, width: nat, rows: Rows, h: nat, r: nat, c: nat)
    requires Rectangle(rows, width) && r < h < WORD && (y < WORD || Low32(y) >= h)
    ensures Pixel(was, x, Low32(y), width, rows, r, c) == Pixel(was, x, y, width, rows, r, c)
  {
  }

  /** A rectangle of ones. */
  ghost predicate Ones(rows: Rows, width: nat) {
    Rectangle(rows, width) && forall i :: 0 <= i < |rows| ==> IsOne(rows[i])
  }
  predicate IsOne(row: seq<U32>) { forall j :: 0 <= j < |row| ==> row[j] == 1 }

  /** What is 1 stays 1. */
  lemma {:induction false} OnesStay(x: int, y: nat, width: nat, rows: Rows, n: nat, r: int, c: int)
    requires n > 0 && Ones(rows, width)
    ensures Landed(1, x, y, width, rows, n, r, c) == 1
    decreases |rows|
  {
    if rows != [] {
      OnesStay(x, y + Min(n, |rows|), width, rows[Min(n, |rows|)..], n, r, c);
    }
  }

  /** Otherwise an upload of ones leaves a one in some row that lies above the rectangle. */
  lemma {:induction false} WrapMarks(x: int, y: nat, width: nat, rows: Rows, n: nat, h: nat, end: nat) returns (r: nat)
    requires n > 0 && width > 0 && Ones(rows, width) && !Harmless(y, |rows|, n, h) && y + |rows| <= end <= 2 * WORD
    ensures r < h && r + WORD < end && forall was :: Landed(was, x, y, width, rows, n, r, x) == 1
    decreases |rows|
  {
    var k := Min(n, |rows|);
    HarmlessRest(y, |rows|, n, h, k);
    if y < WORD || Low32(y) >= h {
      r := WrapMarks(x, y + k, width, rows[k..], n, h, end);
    } else {
      r := y - WORD;
      assert IsOne(rows[0]) && rows[..k][0] == rows[0] && Low32(y) == r;
      OnesStay(x, y + k, width, rows[k..], n, r, x);
    }
  }

  /** Uploads to a surface of h rows equal one clipped write, for every content, exactly when no chunk
      wraps onto it. */
  ghost predicate AlwaysWhole(x: U32, y: U32, width: U32, count: nat, n: nat, h: nat)
    requires n > 0
  {
    forall rows, was, r: nat, c: nat {:trigger Final(was, Chunks(x, y, width, rows, n), r, c)} ::
      Rectangle(rows, width) && |rows| == count && r < h ==>
      Final(was, Chunks(x, y, width, rows, n), r, c) == Pixel(was, x, y, width, rows, r, c)
  }

  lemma {:induction false} WholeIffHarmless(x: U32, y: U32, width: U32, count: nat, n: nat, h: nat)
    requires n > 0 && width > 0 && count < WORD && h < WORD
    ensures AlwaysWhole(x, y, width, count, n, h) <==> Harmless(y, count, n, h)
  {
    if Harmless(y, count, n, h) {
      forall rows, was, r: nat, c: nat | Rectangle(rows, width) && |rows| == count && r < h
        ensures Final(was, Chunks(x, y, width, rows, n), r, c) == Pixel(was, x, y, width, rows, r, c)
      {
        ChunkedIsWhole(was, x, y, width, rows, n, h, r, c);
        FinalIsLanded(was, x, y, width, rows, n, r, c);
      }
    } else {
      var rows := seq(count, _ => seq(width, _ => 1));
      var r := WrapMarks(x, y, width, rows, n, h, y + count);
      FinalIsLanded(0, x, y, width, rows, n, r, x);
      assert Pixel(0, x, y, width, rows, r, x) == 0;
    }
  }

  /** Two rows of 16379 pixels at y = 2^32 - 1 take two messages, and the second one goes to row 0. */
  lemma {:induction false} WrapExample()
    ensures RowsPerChunk(16379) == 1 && !AlwaysWhole(0, 0xFFFF_FFFF, 16379, 2, 1, 1)
  {
    assert !Harmless(0x1_0000_0000, 1, 1, 1);
    assert !Harmless(0xFFFF_FFFF, 2, 1, 1);
    WholeIffHarmless(0, 0xFFFF_FFFF, 16379, 2, 1, 1);
  }

  /** The compositor works through the messages of an upload. */
  method HandleAll(dst: array2<U32>, ms: seq<Chunk>)
    requires AllGood(ms)
    modifies dst
    ensures forall r, c :: 0 <= r < dst.Length0 && 0 <= c < dst.Length1 ==> dst[r, c] == Final(old(dst[r, c]), ms, r, c)
  {
    var i := 0;
    assert ms[0..] == ms;
    while i < |ms|
      invariant 0 <= i <= |ms|
      invariant forall r, c :: 0 <= r < dst.Length0 && 0 <= c < dst.Length1 ==>
        Final(dst[r, c], ms[i..], r, c) == Final(old(dst[r, c]), ms, r, c)
    {
      assert ms[i..][1..] == ms[i + 1..];
      HandleWrite(dst, ms[i]);
      i := i + 1;
    }
  }

  /** From the client to the surface. */
  method UploadTo(dst: array2<U32>, x: U32, y: U32, width: U32, rows: Rows) returns (ok: bool)
    requires Rectangle(rows, width) && |rows| < WORD && 0 < width && 4 * width < WORD && dst.Length0 < WORD
    modifies dst
    ensures ok <==> rows == [] || 4 * width <= MAX_PIXEL_BYTES
    ensures !ok ==> forall r, c :: 0 <= r < dst.Length0 && 0 <= c < dst.Length1 ==> dst[r, c] == old(dst[r, c])
    ensures ok && Harmless(y, |rows|, RowsPerChunk(width), dst.Length0) ==>
      forall r, c :: 0 <= r < dst.Length0 && 0 <= c < dst.Length1 ==>
        dst[r, c] == Pixel(old(dst[r, c]), x, y, width, rows, r, c)
  {
    var ms;
    ok, ms := Upload(x, y, width, rows);
    HandleAll(dst, ms);
    if ok && rows != [] && Harmless(y, |rows|, RowsPerChunk(width), dst.Length0) {
      WholeIffHarmless(x, y, width, |rows|, RowsPerChunk(width), dst.Length0);
      assert AlwaysWhole(x, y, width, |rows|, RowsPerChunk(width), dst.Length0);
    }
  }

  /** rows_per_chunk for a row that fits into a message. */
  function RowsPerChunk(width: nat): (n: nat)
    requires 0 < width
    ensures n > 0
  {
    if 4 * width <= MAX_PIXEL_BYTES then
      RowsFit(4 * width);
      MAX_PIXEL_BYTES / (4 * width)
    else 1
  }
}

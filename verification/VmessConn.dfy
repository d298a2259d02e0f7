/** The writer and reader objects of transport/vmess/chunk.go and transport/vmess/aead.go. */
module VmessConn {
  import opened Collections
  import opened Bytes
  import V = Vmess

  lemma {:induction false} CutOnce(s: V.Session, b: seq<byte>)
    requires s.Valid() && b != []
    ensures var n := if |b| < s.aead.Room() then |b| else s.aead.Room();
            V.Cut(s, b) == [b[..n]] + V.Cut(s, b[n..])
  {
    if |b| <= s.aead.Room() {
      assert b[|b|..] == [] && b[..|b|] == b;
    }
  }

  lemma {:induction false} FrameLast(s: V.Session, count: nat, chunks: seq<seq<byte>>, text: seq<byte>)
    requires s.Valid()
    ensures V.Frames(s, count, chunks + [text]) == V.Frames(s, count, chunks) + V.Frame(s, V.CountAfter(count, |chunks|), text)
    ensures V.CountAfter(count, |chunks| + 1) == V.NextCount(V.CountAfter(count, |chunks|))
    ensures V.Flat(chunks + [text]) == V.Flat(chunks) + text
  {
    V.FramesConcat(s, count, chunks, [text]);
    V.FlatConcat(chunks, [text]);
    assert [text][1..] == [];
    assert V.CountAfter(V.CountAfter(count, |chunks|), 1) == V.CountAfter(V.NextCount(V.CountAfter(count, |chunks|)), 0);
    assert V.Frames(s, V.CountAfter(count, |chunks|), [text]) == V.Frame(s, V.CountAfter(count, |chunks|), text) + [];
    assert V.Flat([text]) == text + [];
  }

  /** aeadWriter; under the plain cipher it is chunkWriter, which has no counter to look at. */
  class Writer {
    const session: V.Session
    const conn: Conn
    var count: nat

    constructor (session: V.Session, conn: Conn)
      ensures this.session == session && this.conn == conn && count == 0
    {
      this.session, this.conn, count := session, conn, 0;
    }

    /** Seal and send the chunk after those of `sent`. */
    method Send(payload: seq<byte>, ghost count0: nat, ghost output0: seq<byte>, ghost sent: seq<seq<byte>>) returns (ok: bool)
      requires session.Valid() && count == V.CountAfter(count0, |sent|)
      requires conn.output == output0 + V.Frames(session, count0, sent)
      modifies this`count, conn`output
      ensures count == V.CountAfter(count0, |sent| + 1) && V.Flat(sent + [payload]) == V.Flat(sent) + payload
      ensures ok ==> conn.output == output0 + V.Frames(session, count0, sent + [payload])
      ensures !ok ==> output0 + V.Frames(session, count0, sent) <= conn.output
    {
      FrameLast(session, count0, sent, payload);
      var out := V.Frame(session, count, payload);
      count := V.NextCount(count);
      var n;
      n, ok := conn.TryWrite(out);
      assert out[..|out|] == out;
    }

    /** All of b in chunks, or as many whole chunks as went out before a write failed. */
    method Write(b: seq<byte>) returns (n: nat, ok: bool, ghost sent: seq<seq<byte>>)
      requires session.Valid()
      modifies this`count, conn`output
      ensures ok ==> n == |b| && sent == V.Cut(session, b)
                     && conn.output == old(conn.output) + V.Frames(session, old(count), sent)
                     && count == V.CountAfter(old(count), |sent|)
      ensures !ok ==> sent < V.Cut(session, b) && n == |V.Flat(sent)|
                      && old(conn.output) + V.Frames(session, old(count), sent) <= conn.output
    {
      n, ok, sent := 0, true, [];
      ghost var count0, output0 := count, conn.output;
      var length := |b|;
      assert b[0..] == b;
      while length != 0
        invariant 0 <= length && n + length == |b| && n == |V.Flat(sent)|
        invariant CutUpTo(session, b, n, sent)
        invariant conn.output == output0 + V.Frames(session, count0, sent) && count == V.CountAfter(count0, |sent|)
        decreases length
      {
        ghost var more;
        ok, n, more := SendNext(b, n, count0, output0, sent);
        if !ok {
          return;
        }
        sent := more;
        length := |b| - n;
      }
      assert b[n..] == [];
    }

    /** The next chunk of b. */
    method SendNext(b: seq<byte>, n: nat, ghost count0: nat, ghost output0: seq<byte>, ghost sent: seq<seq<byte>>)
      returns (ok: bool, n': nat, ghost sent': seq<seq<byte>>)
      requires session.Valid() && n < |b| && n == |V.Flat(sent)|
      requires CutUpTo(session, b, n, sent)
      requires conn.output == output0 + V.Frames(session, count0, sent) && count == V.CountAfter(count0, |sent|)
      modifies this`count, conn`output
      ensures sent < V.Cut(session, b)
      ensures !ok ==> n' == n && output0 + V.Frames(session, count0, sent) <= conn.output
      ensures ok ==> n < n' <= |b| && n' == |V.Flat(sent')| && CutUpTo(session, b, n', sent')
                     && conn.output == output0 + V.Frames(session, count0, sent') && count == V.CountAfter(count0, |sent'|)
    {
      var length := |b| - n;
      var readLen := V.CHUNK_SIZE - session.aead.overhead;
      if length < readLen {
        readLen := length;
      }
      var payload := b[n..n + readLen];
      CutNext(session, b, n, sent, payload);
      ok := Send(payload, count0, output0, sent);
      n', sent' := if ok then n + |payload| else n, sent + [payload];
    }
  }

  /** The pieces of b up to byte n are those of `sent`. */
  ghost predicate CutUpTo(s: V.Session, b: seq<byte>, n: nat, sent: seq<seq<byte>>)
    requires s.Valid()
  {
    n <= |b| && sent + V.Cut(s, b[n..]) == V.Cut(s, b)
  }

  lemma {:induction false} CutNext(s: V.Session, b: seq<byte>, n: nat, sent: seq<seq<byte>>, payload: seq<byte>)
    requires s.Valid() && n < |b| && CutUpTo(s, b, n, sent)
    requires payload == b[n..n + if |b| - n < s.aead.Room() then |b| - n else s.aead.Room()]
    ensures sent < V.Cut(s, b)
    ensures CutUpTo(s, b, n + |payload|, sent + [payload])
  {
    var rest := b[n..];
    CutOnce(s, rest);
    assert rest[..|payload|] == payload && rest[|payload|..] == b[n + |payload|..];
    assert (sent + [payload]) + V.Cut(s, b[n + |payload|..]) == sent + ([payload] + V.Cut(s, b[n + |payload|..]));
  }

  /** aeadReader. */
  class AeadReader {
    const session: V.Session
    const conn: Conn
    var buf: Option<seq<byte>>
    var offset: nat
    var count: nat

    ghost predicate Valid()
      reads this
    {
      session.Valid() && (buf.Some? ==> offset < |buf.value|)
    }

    ghost function Abs(): V.Reader
      reads this
      requires Valid()
    {
      V.Reader(if buf.Some? then Some(buf.value[offset..]) else None, count)
    }

    constructor (session: V.Session, conn: Conn)
      requires session.Valid()
      ensures this.session == session && this.conn == conn && Valid() && Abs() == V.Reader(None, 0)
    {
      this.session, this.conn := session, conn;
      buf, offset, count := None, 0, 0;
    }

    /** A call whose buffer has room for `max` bytes. */
    method Read(max: nat) returns (r: V.Read)
      requires Valid()
      modifies this, conn`input
      ensures Valid() && (r, Abs(), conn.input) == V.ReadStep(session, old(Abs()), old(conn.input), max)
    {
      if buf.Some? {
        r := Rest(max);
        return;
      }
      ghost var wire := conn.input;
      var sizeBuf := conn.ReadFull(V.LEN_SIZE);
      if sizeBuf.None? {
        return V.Short;
      }
      var size := Uint16(sizeBuf.value);
      if size > V.MAX_SIZE {
        return V.TooLarge;
      }
      var sealed := conn.ReadFull(size);
      if sealed.None? {
        return V.Short;
      }
      assert sealed.value == wire[V.LEN_SIZE..V.LEN_SIZE + size] && conn.input == wire[V.LEN_SIZE + size..];
      r := Open(sealed.value, max);
    }

    /** What is left of the chunk of an earlier call. */
    method Rest(max: nat) returns (r: V.Read)
      requires Valid() && buf.Some?
      modifies this`buf, this`offset
      ensures Valid()
      ensures var (out, rest) := V.HandOut(old(buf.value[offset..]), max);
              r == V.Got(out) && Abs() == V.Reader(if rest == [] then None else Some(rest), count)
    {
      var left := buf.value[offset..];
      var n := if max < |left| then max else |left|;
      offset := offset + n;
      if offset == |buf.value| {
        buf := None;
      }
      return V.Got(left[..n]);
    }

    method Open(sealed: seq<byte>, max: nat) returns (r: V.Read)
      requires Valid() && buf.None?
      modifies this
      ensures Valid()
      ensures var text := session.aead.open(session.Nonce(old(count)), sealed);
              if text.None? then r == V.BadChunk && Abs() == V.Reader(None, V.NextCount(old(count)))
              else
                var (out, rest) := V.HandOut(text.value, max);
                r == V.Got(out) && Abs() == V.Reader(if rest == [] then None else Some(rest), V.NextCount(old(count)))
    {
      var text := session.aead.open(session.Nonce(count), sealed);
      count := V.NextCount(count);
      if text.None? {
        return V.BadChunk;
      }
      var realLen := |text.value|;
      if max >= realLen {
        return V.Got(text.value);
      }
      offset := max;
      buf := text;
      return V.Got(text.value[..max]);
    }
  }

  /** chunkReader: a chunk that fits goes straight into the caller's buffer. */
  class ChunkReader {
    const conn: Conn
    var buf: Option<seq<byte>>
    var offset: nat

    ghost predicate Valid()
      reads this
    {
      buf.Some? ==> offset < |buf.value|
    }

    ghost function Left(): Option<seq<byte>>
      reads this
      requires Valid()
    {
      if buf.Some? then Some(buf.value[offset..]) else None
    }

    constructor (conn: Conn)
      ensures this.conn == conn && Valid() && Left() == None
    {
      this.conn := conn;
      buf, offset := None, 0;
    }

    /** The steps of the plain session; its counter, which the source does not keep, is a parameter. */
    method Read(max: nat, ghost session: V.Session, ghost count: nat) returns (r: V.Read)
      requires Valid() && session.Valid() && session.aead == V.PLAIN
      modifies this, conn`input
      ensures Valid()
      ensures var (r', reader, wire) := V.ReadStep(session, V.Reader(old(Left()), count), old(conn.input), max);
              r == r' && Left() == reader.left && conn.input == wire
    {
      if buf.Some? {
        var left := buf.value[offset..];
        var n := if max < |left| then max else |left|;
        offset := offset + n;
        if offset == |buf.value| {
          buf := None;
        }
        return V.Got(left[..n]);
      }
      ghost var wire := conn.input;
      var sizeBuf := conn.ReadFull(V.LEN_SIZE);
      if sizeBuf.None? {
        return V.Short;
      }
      var size := Uint16(sizeBuf.value);
      if size > V.MAX_SIZE {
        return V.TooLarge;
      }
      var text := conn.ReadFull(size);
      if text.None? {
        return V.Short;
      }
      assert text.value == wire[V.LEN_SIZE..V.LEN_SIZE + size] && conn.input == wire[V.LEN_SIZE + size..];
      if max >= size {
        return V.Got(text.value);
      }
      offset := max;
      buf := text;
      return V.Got(text.value[..max]);
    }
  }
}

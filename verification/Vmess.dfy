/** The chunked body streams of transport/vmess: plain chunks (chunk.go) and chunks sealed
    under a counting nonce (aead.go).

    The cipher is abstract: a sealing and an opening function.  A plain chunk is a chunk
    under the cipher that leaves everything as it is. */
module Vmess {
  import opened Collections
  import opened Bytes

  const LEN_SIZE: nat := 2
  const CHUNK_SIZE: nat := 16384
  const MAX_SIZE: nat := 17408

  datatype Aead = Aead(overhead: nat, nonceSize: nat,
                       seal: (seq<byte>, seq<byte>) -> seq<byte>,
                       open: (seq<byte>, seq<byte>) -> Option<seq<byte>>)
  {
    /** Opening undoes sealing under the same nonce. */
    ghost predicate Lawful() {
      && overhead < CHUNK_SIZE && nonceSize <= 32
      && forall nonce, text :: |seal(nonce, text)| == |text| + overhead && open(nonce, seal(nonce, text)) == Some(text)
    }

    /** The most a chunk carries. */
    function Room(): int {
      CHUNK_SIZE - overhead
    }
  }

  const PLAIN := Aead(0, 0, (nonce, text) => text, (nonce, text) => Some(text))

  lemma {:induction false} PlainIsLawful()
    ensures PLAIN.Lawful()
  {
  }

  /** The two ends share a cipher and an initialisation vector. */
  datatype Session = Session(aead: Aead, iv: seq<byte>)
  {
    ghost predicate Valid() {
      aead.Lawful() && |iv| >= 12
    }

    /** The nonce of the chunk with this count: two bytes of count, ten of iv, padded to 32, cut to size. */
    function Nonce(count: nat): seq<byte>
      requires |iv| >= 12 && aead.nonceSize <= 32
    {
      (PutUint16(count) + iv[2..12] + seq(20, _ => 0))[..aead.nonceSize]
    }
  }

  /** Different counts have different nonces. */
  lemma {:induction false} NonceTells(s: Session, a: nat, b: nat)
    requires s.Valid() && 2 <= s.aead.nonceSize <= 32 && a < TWO16 && b < TWO16 && s.Nonce(a) == s.Nonce(b)
    ensures a == b
  {
    assert s.Nonce(a)[..2] == PutUint16(a) && s.Nonce(b)[..2] == PutUint16(b);
    Uint16Put(a);
    Uint16Put(b);
  }

  /** The nonce, byte by byte: the count, high byte first, then the third to the twelfth byte of the vector, then zeros. */
  lemma {:induction false} NonceBytes(s: Session, count: nat, i: nat)
    requires s.Valid() && s.aead.nonceSize <= 32 && count < TWO16 && i < s.aead.nonceSize
    ensures |s.Nonce(count)| == s.aead.nonceSize
    ensures s.Nonce(count)[i] as int ==
            if i == 0 then count / 256 else if i == 1 then count % 256 else if i < 12 then s.iv[i] as int else 0
  {
    Uint16Put(count);
  }

  /** uint16 counters wrap. */
  function NextCount(count: nat): nat {
    (count + 1) % TWO16
  }

  function Frame(s: Session, count: nat, text: seq<byte>): seq<byte>
    requires s.Valid()
  {
    PutUint16(|text| + s.aead.overhead) + s.aead.seal(s.Nonce(count), text)
  }

  /** The chunks that a Write cuts its bytes into. */
  function Cut(s: Session, b: seq<byte>): (chunks: seq<seq<byte>>)
    requires s.Valid()
    ensures forall i :: 0 <= i < |chunks| ==> 0 < |chunks[i]| <= s.aead.Room()
  {
    if |b| == 0 then []
    else if |b| <= s.aead.Room() then [b]
    else [b[..s.aead.Room()]] + Cut(s, b[s.aead.Room()..])
  }

  /** Chunks on the wire, counted from `count`. */
  function Frames(s: Session, count: nat, chunks: seq<seq<byte>>): seq<byte>
    requires s.Valid()
    decreases |chunks|
  {
    if chunks == [] then [] else Frame(s, count, chunks[0]) + Frames(s, NextCount(count), chunks[1..])
  }

  function CountAfter(count: nat, n: nat): nat
    decreases n
  {
    if n == 0 then count else CountAfter(NextCount(count), n - 1)
  }

  function Flat(chunks: seq<seq<byte>>): seq<byte> {
    if chunks == [] then [] else chunks[0] + Flat(chunks[1..])
  }

  lemma {:induction false} CutKeepsAll(s: Session, b: seq<byte>)
    requires s.Valid()
    ensures Flat(Cut(s, b)) == b
  {
    if |b| > s.aead.Room() {
      var first, rest := b[..s.aead.Room()], b[s.aead.Room()..];
      CutKeepsAll(s, rest);
      assert ([first] + Cut(s, rest))[1..] == Cut(s, rest);
    } else if |b| > 0 {
      assert [b][1..] == [];
    }
  }

  lemma {:induction false} FlatConcat(a: seq<seq<byte>>, b: seq<seq<byte>>)
    ensures Flat(a + b) == Flat(a) + Flat(b)
  {
    if a == [] {
      assert a + b == b;
    } else {
      FlatConcat(a[1..], b);
      assert (a + b)[1..] == a[1..] + b;
      Associates(a[0], Flat(a[1..]), Flat(b));
    }
  }

  lemma {:induction false} FramesConcat(s: Session, count: nat, a: seq<seq<byte>>, b: seq<seq<byte>>)
    requires s.Valid()
    ensures Frames(s, count, a + b) == Frames(s, count, a) + Frames(s, CountAfter(count, |a|), b)
    ensures CountAfter(count, |a| + |b|) == CountAfter(CountAfter(count, |a|), |b|)
    decreases |a|
  {
    if a == [] {
      assert a + b == b;
    } else {
      FramesConcat(s, NextCount(count), a[1..], b);
      assert (a + b)[1..] == a[1..] + b;
      Associates(Frame(s, count, a[0]), Frames(s, NextCount(count), a[1..]), Frames(s, CountAfter(count, |a|), b));
    }
  }

  // ------------------------------------------------------------ reading

  /** The reader between two calls: bytes of an opened chunk not yet handed out, if any, and its count. */
  datatype Reader = Reader(left: Option<seq<byte>>, count: nat)

  datatype Read = Got(bytes: seq<byte>) | Short | TooLarge | BadChunk

  /** Hand out up to `max` bytes of `text`; what is left waits for the next call. */
  function HandOut(text: seq<byte>, max: nat): (seq<byte>, seq<byte>) {
    if max < |text| then (text[..max], text[max..]) else (text, [])
  }

  /** One Read with a buffer of `max` bytes: the answer, the reader and the wire after it. */
  function ReadStep(s: Session, r: Reader, wire: seq<byte>, max: nat): (Read, Reader, seq<byte>)
    requires |s.iv| >= 12 && s.aead.nonceSize <= 32
  {
    if r.left.Some? then
      var (out, rest) := HandOut(r.left.value, max);
      (Got(out), r.(left := if rest == [] then None else Some(rest)), wire)
    else if |wire| < LEN_SIZE then (Short, r, [])
    else
      var size := Uint16(wire[..LEN_SIZE]);
      if size > MAX_SIZE then (TooLarge, r, wire[LEN_SIZE..])
      else if |wire| < LEN_SIZE + size then (Short, r, [])
      else
        var rest := wire[LEN_SIZE + size..];
        var text := s.aead.open(s.Nonce(r.count), wire[LEN_SIZE..LEN_SIZE + size]);
        if text.None? then (BadChunk, r.(count := NextCount(r.count)), rest)
        else
          var (out, left) := HandOut(text.value, max);
          (Got(out), Reader(if left == [] then None else Some(left), NextCount(r.count)), rest)
  }

  /** A whole chunk at the front of the wire is read back as it was written. */
  lemma {:induction false} ReadsFrame(s: Session, count: nat, text: seq<byte>, rest: seq<byte>, max: nat)
    requires s.Valid() && 0 < |text| <= s.aead.Room()
    ensures var (out, left) := HandOut(text, max);
            ReadStep(s, Reader(None, count), Frame(s, count, text) + rest, max)
            == (Got(out), Reader(if left == [] then None else Some(left), NextCount(count)), rest)
  {
    var size, sealed := |text| + s.aead.overhead, s.aead.seal(s.Nonce(count), text);
    var wire := Frame(s, count, text) + rest;
    Uint16Put(size);
    assert wire[..LEN_SIZE] == PutUint16(size);
    assert wire[LEN_SIZE..LEN_SIZE + size] == sealed;
    assert wire[LEN_SIZE + size..] == rest;
  }

  // ------------------------------------------------------------ both ends together

  /** A writer and a reader on one wire; `written` and `delivered` are all bytes so far. */
  datatype System = System(count: nat, reader: Reader, wire: seq<byte>, written: seq<byte>, delivered: seq<byte>, failed: bool)

  datatype Op = WriteOp(b: seq<byte>) | ReadOp(max: nat)

  const START := System(0, Reader(None, 0), [], [], [], false)

  function Deliver(sys: System, step: (Read, Reader, seq<byte>)): System {
    match step.0
    case Got(out) => sys.(reader := step.1, wire := step.2, delivered := sys.delivered + out)
    case Short => sys // the call blocks until more has been written
    case TooLarge => sys.(failed := true)
    case BadChunk => sys.(failed := true)
  }

  function Next(s: Session, sys: System, op: Op): System
    requires s.Valid()
  {
    match op
    case WriteOp(b) =>
      var chunks := Cut(s, b);
      sys.(count := CountAfter(sys.count, |chunks|), wire := sys.wire + Frames(s, sys.count, chunks), written := sys.written + b)
    case ReadOp(max) => Deliver(sys, ReadStep(s, sys.reader, sys.wire, max))
  }

  function Run(s: Session, ops: seq<Op>): System
    requires s.Valid()
  {
    if ops == [] then START else Next(s, Run(s, ops[..|ops| - 1]), ops[|ops| - 1])
  }

  function Left(r: Reader): seq<byte> {
    if r.left.Some? then r.left.value else []
  }

  /** The chunks in flight: sealed from the reader's count on up to the writer's, and holding, after
      what the reader still has, all that was written and not delivered. */
  ghost predicate InFlight(s: Session, sys: System, chunks: seq<seq<byte>>)
    requires s.Valid()
  {
    && !sys.failed && (sys.reader.left.Some? ==> sys.reader.left.value != [])
    && (forall i :: 0 <= i < |chunks| ==> 0 < |chunks[i]| <= s.aead.Room())
    && sys.wire == Frames(s, sys.reader.count, chunks)
    && sys.count == CountAfter(sys.reader.count, |chunks|)
    && sys.written == sys.delivered + Left(sys.reader) + Flat(chunks)
  }

  lemma {:induction false} WriteKeeps(s: Session, sys: System, chunks: seq<seq<byte>>, b: seq<byte>)
    requires s.Valid() && InFlight(s, sys, chunks)
    ensures InFlight(s, Next(s, sys, WriteOp(b)), chunks + Cut(s, b))
  {
    var more := Cut(s, b);
    FramesConcat(s, sys.reader.count, chunks, more);
    FlatConcat(chunks, more);
    CutKeepsAll(s, b);
    Associates(sys.delivered + Left(sys.reader), Flat(chunks), b);
  }

  lemma {:induction false} HandsOut(text: seq<byte>, max: nat)
    ensures var (out, rest) := HandOut(text, max);
            out + rest == text && (max > 0 && text != [] ==> out != [])
  {
  }

  /** The state after a read that hands out bytes of `text`. */
  function Handed(sys: System, text: seq<byte>, count: nat, wire: seq<byte>, max: nat): System {
    var (out, rest) := HandOut(text, max);
    sys.(reader := Reader(if rest == [] then None else Some(rest), count), wire := wire, delivered := sys.delivered + out)
  }

  lemma {:induction false} HandedKeeps(s: Session, sys: System, text: seq<byte>, count: nat, chunks: seq<seq<byte>>, max: nat)
    requires s.Valid() && !sys.failed && text != [] && sys.count == CountAfter(count, |chunks|)
    requires forall i :: 0 <= i < |chunks| ==> 0 < |chunks[i]| <= s.aead.Room()
    requires sys.written == sys.delivered + (text + Flat(chunks))
    ensures var sys' := Handed(sys, text, count, Frames(s, count, chunks), max);
            InFlight(s, sys', chunks) && (max > 0 ==> |sys'.delivered| > |sys.delivered|)
  {
    HandsOut(text, max);
    var (out, rest) := HandOut(text, max);
    Associates(sys.delivered, text, Flat(chunks));
    Associates(sys.delivered, out, rest);
  }

  lemma {:induction false} ReadKeeps(s: Session, sys: System, chunks: seq<seq<byte>>, max: nat) returns (chunks': seq<seq<byte>>)
    requires s.Valid() && InFlight(s, sys, chunks)
    ensures InFlight(s, Next(s, sys, ReadOp(max)), chunks')
    ensures max > 0 && |sys.delivered| < |sys.written| ==> |Next(s, sys, ReadOp(max)).delivered| > |sys.delivered|
  {
    chunks' := chunks;
    if sys.reader.left.Some? {
      LeftRead(s, sys, max);
      Associates(sys.delivered, sys.reader.left.value, Flat(chunks));
      HandedKeeps(s, sys, sys.reader.left.value, sys.reader.count, chunks, max);
    } else if chunks != [] {
      chunks' := chunks[1..];
      ChunkRead(s, sys, chunks, max);
      assert sys.delivered + [] == sys.delivered;
      HandedKeeps(s, sys, chunks[0], NextCount(sys.reader.count), chunks', max);
    }
  }

  lemma {:induction false} LeftRead(s: Session, sys: System, max: nat)
    requires s.Valid() && sys.reader.left.Some?
    ensures Next(s, sys, ReadOp(max)) == Handed(sys, sys.reader.left.value, sys.reader.count, sys.wire, max)
  {
  }

  lemma {:induction false} ChunkRead(s: Session, sys: System, chunks: seq<seq<byte>>, max: nat)
    requires s.Valid() && sys.reader.left.None? && chunks != [] && 0 < |chunks[0]| <= s.aead.Room()
    requires sys.wire == Frames(s, sys.reader.count, chunks)
    ensures var count := NextCount(sys.reader.count);
            Next(s, sys, ReadOp(max)) == Handed(sys, chunks[0], count, Frames(s, count, chunks[1..]), max)
  {
    ReadsFrame(s, sys.reader.count, chunks[0], Frames(s, NextCount(sys.reader.count), chunks[1..]), max);
  }

  lemma {:induction false} RunKeeps(s: Session, ops: seq<Op>) returns (chunks: seq<seq<byte>>)
    requires s.Valid()
    ensures InFlight(s, Run(s, ops), chunks)
  {
    if ops == [] {
      chunks := [];
    } else {
      var before := RunKeeps(s, ops[..|ops| - 1]);
      match ops[|ops| - 1]
      case WriteOp(b) =>
        WriteKeeps(s, Run(s, ops[..|ops| - 1]), before, b);
        chunks := before + Cut(s, b);
      case ReadOp(max) =>
        chunks := ReadKeeps(s, Run(s, ops[..|ops| - 1]), before, max);
    }
  }

  /** In every run no read fails, what was read is a prefix of what was written, and a read with
      room for a byte makes progress unless all of it has been read. */
  lemma {:induction false} StreamIsFaithful(s: Session, ops: seq<Op>, max: nat)
    requires s.Valid()
    ensures var sys := Run(s, ops);
            && !sys.failed && sys.delivered <= sys.written
            && (max > 0 && sys.delivered != sys.written ==> |Next(s, sys, ReadOp(max)).delivered| > |sys.delivered|)
  {
    var chunks := RunKeeps(s, ops);
    var sys := Run(s, ops);
    assert sys.written == sys.delivered + (Left(sys.reader) + Flat(chunks));
    var _ := ReadKeeps(s, sys, chunks, max);
  }

  ghost predicate Reads(ops: seq<Op>) {
    forall i :: 0 <= i < |ops| ==> ops[i].ReadOp? && ops[i].max > 0
  }

  /** Reads alone do not change what was written; each delivers a byte or finds nothing left. */
  lemma {:induction false} ReadsAdvance(s: Session, ops: seq<Op>, more: seq<Op>)
    requires s.Valid() && Reads(more)
    ensures var (sys, end) := (Run(s, ops), Run(s, ops + more));
            && end.written == sys.written
            && (|sys.delivered| + |more| <= |end.delivered| || end.delivered == sys.written)
  {
    if more == [] {
      assert ops + more == ops;
    } else {
      var prefix, last := more[..|more| - 1], more[|more| - 1];
      ReadsAdvance(s, ops, prefix);
      assert (ops + more)[..|ops + more| - 1] == ops + prefix && (ops + more)[|ops + more| - 1] == last;
      StreamIsFaithful(s, ops + prefix, last.max);
      StreamIsFaithful(s, ops + more, 0);
    }
  }

  /** Enough reads deliver everything, whatever their sizes. */
  lemma {:induction false} StreamDrains(s: Session, ops: seq<Op>, more: seq<Op>)
    requires s.Valid() && Reads(more)
    requires |Run(s, ops).written| <= |Run(s, ops).delivered| + |more|
    ensures Run(s, ops + more).delivered == Run(s, ops).written
  {
    ReadsAdvance(s, ops, more);
    StreamIsFaithful(s, ops + more, 0);
  }
}

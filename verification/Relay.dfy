/** The relay of tunnel/connection.go up to the start of its two lanes: draining and unwrapping nested
    connections. A write of the drain is one that succeeds. */
module Relay {
  import opened Bytes
  import opened Collections
  import L = RelayLanes

  const BUFFER: nat := 4096

  /** The bytes read ahead by a BufferedConn. */
  class Reader {
    var buf: seq<byte>

    constructor ()
      ensures buf == []
    {
      buf := [];
    }
  }

  /** A connection under any number of wrappers, some of which read ahead. */
  datatype Net =
    | Raw(conn: Conn)
    | Plain(inner: Net)
    | Buffered(r: Reader, inner: Net)

  function Base(net: Net): Conn {
    match net
    case Raw(conn) => conn
    case Plain(inner) => Base(inner)
    case Buffered(_, inner) => Base(inner)
  }

  ghost function Readers(net: Net): set<Reader> {
    match net
    case Raw(_) => {}
    case Plain(inner) => Readers(inner)
    case Buffered(r, inner) => {r} + Readers(inner)
  }

  /** Each BufferedConn has a reader of its own. */
  ghost predicate Proper(net: Net) {
    match net
    case Raw(_) => true
    case Plain(inner) => Proper(inner)
    case Buffered(r, inner) => r !in Readers(inner) && Proper(inner)
  }

  /** All the bytes that reading the connection to its end gives. */
  ghost function Stream(net: Net): seq<byte>
    reads Readers(net), Base(net)`input
  {
    match net
    case Raw(conn) => conn.input
    case Plain(inner) => Stream(inner)
    case Buffered(r, inner) => r.buf + Stream(inner)
  }

  /** A write to a connection touches no reader. */
  lemma {:induction false} NoReader(net: Net, c: Conn)
    ensures forall r :: r in Readers(net) ==> (r as object) != (c as object)
  {
  }

  lemma {:induction false} NothingAhead(net: Net)
    requires forall r :: r in Readers(net) ==> r.buf == []
    ensures Stream(net) == Base(net).input
  {
    match net
    case Raw(_) =>
    case Plain(inner) => NothingAhead(inner);
    case Buffered(_, inner) => NothingAhead(inner);
  }

  /** Reading through wrappers takes the next bytes of the stream, at least one unless it has ended. */
  method Read(net: Net, max: nat) returns (b: seq<byte>)
    requires Proper(net)
    modifies Readers(net), Base(net)`input
    ensures b + Stream(net) == old(Stream(net)) && |b| <= max
    ensures max > 0 && old(Stream(net)) != [] ==> b != []
    decreases net, 0
  {
    match net {
      case Raw(conn) =>
        b := conn.Read(max);
      case Plain(inner) =>
        b := Read(inner, max);
      case Buffered(r, inner) =>
        b := ReadBuffered(r, inner, max);
    }
  }

  /** bufio.Reader.Read: what was read ahead, or else the bytes below, by way of the buffer if that is larger. */
  method ReadBuffered(r: Reader, inner: Net, max: nat) returns (b: seq<byte>)
    requires Proper(inner) && r !in Readers(inner)
    modifies r, Readers(inner), Base(inner)`input
    ensures b + (r.buf + Stream(inner)) == old(r.buf + Stream(inner)) && |b| <= max
    ensures max > 0 && old(r.buf + Stream(inner)) != [] ==> b != []
    decreases inner, 1
  {
    assert (r as object) != (Base(inner) as object);
    assert allocated(Readers(inner)) && allocated(Base(inner));
    if r.buf != [] {
      ghost var rest := Stream(inner);
      b := Take(r, max);
      Associates(b, r.buf, rest);
      return;
    }
    assert [] + Stream(inner) == Stream(inner);
    if max >= BUFFER {
      b := Read(inner, max);
      assert r.buf + Stream(inner) == Stream(inner);
      return;
    }
    var ahead := Read(inner, BUFFER);
    ghost var rest := Stream(inner);
    r.buf := ahead;
    b := Take(r, max);
    assert Stream(inner) == rest;
    Associates(b, r.buf, rest);
  }

  /** As many of the bytes read ahead as fit. */
  method Take(r: Reader, max: nat) returns (b: seq<byte>)
    modifies r
    ensures b + r.buf == old(r.buf) && |b| <= max
    ensures max > 0 && old(r.buf) != [] ==> b != []
  {
    b := r.buf[..if max < |r.buf| then max else |r.buf|];
    r.buf := r.buf[|b|..];
  }

  /** drainAndUnwrap: no byte is lost, repeated or moved. What had been read ahead goes to the target,
      and the connection that is left gives the rest. */
  method DrainAndUnwrap(net: Net, target: Net) returns (curr: Net)
    requires Proper(net)
    modifies Readers(net), Base(target)`output
    ensures curr == Raw(Base(net))
    ensures forall r :: r in Readers(net) ==> r.buf == []
    ensures old(Base(target).output) <= Base(target).output
    ensures Base(target).output + Base(net).input == old(Base(target).output) + old(Stream(net))
  {
    curr := net;
    NoReader(net, Base(target));
    assert allocated(Readers(net)) && allocated(Base(net));
    ghost var sent, all := Base(target).output, Stream(net);
    while !curr.Raw?
      invariant Proper(curr) && Readers(curr) <= Readers(net) && Base(curr) == Base(net)
      invariant forall r :: r in Readers(net) ==> r in Readers(curr) || r.buf == []
      invariant sent <= Base(target).output && Base(target).output + Stream(curr) == sent + all
      decreases curr
    {
      if curr.Buffered? {
        var bc, inner := curr.r, curr.inner;
        var n := |bc.buf|;
        ghost var before, rest := Base(target).output, Stream(inner);
        assert Stream(curr) == bc.buf + rest;
        assert bc !in Readers(inner) && (bc as object) != (Base(net) as object);
        if n > 0 {
          var buf := bc.buf;
          bc.buf := [];
          WriteTo(target, buf);
          assert before + (buf + rest) == (before + buf) + rest;
        }
      }
      curr := curr.inner;
    }
  }

  /** Wrappers hand a write down to the connection below. */
  method WriteTo(net: Net, b: seq<byte>)
    modifies Base(net)`output
    ensures Base(net).output == old(Base(net).output) + b
    decreases net
  {
    match net
    case Raw(conn) => conn.Write(b);
    case Plain(inner) => WriteTo(inner, b);
    case Buffered(_, inner) => WriteTo(inner, b);
  }

  /** io.CopyBuffer and io.CopyN left alone: everything up to the end of the source, in a run of the lane's steps. */
  method Copy(dst: Net, src: Net, max: nat, ghost st: L.State, ghost way: L.Way) returns (ghost es: seq<L.Event>)
    requires Proper(src) && max > 0
    requires L.SrcOpen(st, way) && L.DstOpen(st, way)
    requires var lane := L.LaneOf(st, way); lane.phase.Copying? && lane.held == [] && lane.unread == Stream(src)
    modifies Readers(src), Base(src)`input, Base(dst)`output
    ensures Stream(src) == []
    ensures Base(dst).output == old(Base(dst).output) + old(Stream(src))
    ensures L.Run(st, es) == Some(L.WithLane(st, way, L.Lane([], [], L.LaneOf(st, way).sent + old(Stream(src)), L.Ended(true, 0))))
  {
    NoReader(src, Base(dst));
    assert allocated(Readers(src)) && allocated(Base(src)) && allocated(Base(dst));
    ghost var sent, all, first := Base(dst).output, Stream(src), L.LaneOf(st, way).sent;
    ghost var lane := L.LaneOf(st, way);
    es := [];
    assert first + [] == first;
    while true
      invariant Base(dst).output + Stream(src) == sent + all
      invariant lane == L.Lane(Stream(src), [], lane.sent, L.Copying) && lane.sent + Stream(src) == first + all
      invariant L.Run(st, es) == Some(L.WithLane(st, way, lane))
      decreases |Stream(src)|
    {
      ghost var before := Base(dst).output;
      var b := CopyPiece(dst, src, max);
      ghost var rest := Stream(src);
      if b == [] {
        assert before + [] == before && lane.sent + [] == lane.sent;
        es := L.LaneEnds(st, es, way, lane);
        break;
      }
      Associates(before, b, rest);
      Associates(lane.sent, b, rest);
      es, lane := L.LaneCopies(st, es, way, lane, b, rest);
    }
  }

  /** Read a piece and write it, unless the stream has ended. */
  method CopyPiece(dst: Net, src: Net, max: nat) returns (b: seq<byte>)
    requires Proper(src) && max > 0
    modifies Readers(src), Base(src)`input, Base(dst)`output
    ensures b + Stream(src) == old(Stream(src)) && Base(dst).output == old(Base(dst).output) + b
    ensures b == [] ==> Stream(src) == []
  {
    NoReader(src, Base(dst));
    assert allocated(Readers(src)) && allocated(Base(src)) && allocated(Base(dst));
    b := Read(src, max);
    ghost var rest := Stream(src);
    if b != [] {
      WriteTo(dst, b);
      assert Stream(src) == rest;
    }
  }

  /** relay up to the start of its lanes, each side in an idle-timeout wrapper: with zero copy what was read ahead
      is sent first. Then the lanes copy between the bare connections, if both are TCP, or the wrapped ones. What has
      been sent and what the lanes have to copy make up the two streams. */
  method StartLanes(left: Net, right: Net, zeroCopy: bool, bothTcp: bool) returns (srcLeft: Net, srcRight: Net, ghost st: L.State)
    requires Proper(left) && Proper(right) && Readers(left) !! Readers(right) && Base(left) != Base(right)
    modifies Readers(left), Readers(right), Base(left)`output, Base(right)`output
    ensures Proper(srcLeft) && Base(srcLeft) == Base(left) && Proper(srcRight) && Base(srcRight) == Base(right)
    ensures L.Start(st) && st.toRight.unread == Stream(srcLeft) && st.toLeft.unread == Stream(srcRight)
    ensures L.Stream(st.toRight) == old(Stream(left)) && L.Stream(st.toLeft) == old(Stream(right))
    ensures Base(right).output == old(Base(right).output) + st.toRight.sent
    ensures Base(left).output == old(Base(left).output) + st.toLeft.sent
  {
    NoReader(left, Base(left));
    NoReader(left, Base(right));
    NoReader(right, Base(left));
    NoReader(right, Base(right));
    assert allocated(Readers(left)) && allocated(Readers(right));
    assert allocated(Base(left)) && allocated(Base(right));
    srcLeft, srcRight := Plain(left), Plain(right);
    ghost var aheadLeft: seq<byte>, aheadRight: seq<byte> := [], [];
    if zeroCopy {
      var orgLeft, orgRight;
      orgLeft, aheadLeft := Drain(left, right);
      orgRight, aheadRight := Drain(right, left);
      NothingAhead(left);
      NothingAhead(right);
      if bothTcp {
        srcLeft, srcRight := orgLeft, orgRight;
      }
    }
    st := L.StartOf(aheadLeft, Stream(srcLeft), aheadRight, Stream(srcRight));
  }

  /** Drain one side; `ahead` is what goes out. */
  method Drain(net: Net, target: Net) returns (org: Net, ghost ahead: seq<byte>)
    requires Proper(net)
    modifies Readers(net), Base(target)`output
    ensures org == Raw(Base(net)) && forall r :: r in Readers(net) ==> r.buf == []
    ensures Base(target).output == old(Base(target).output) + ahead && ahead + Base(net).input == old(Stream(net))
  {
    ghost var before, all := Base(target).output, Stream(net);
    org := DrainAndUnwrap(Plain(net), Plain(target));
    ahead := Split(before, Base(target).output, Base(net).input, all);
  }

  /** The part of a stream that went out. */
  lemma {:induction false} Split(before: seq<byte>, after: seq<byte>, rest: seq<byte>, all: seq<byte>) returns (ahead: seq<byte>)
    requires before <= after && after + rest == before + all
    ensures after == before + ahead && ahead + rest == all
  {
    ahead := after[|before|..];
    assert before + (ahead + rest) == before + all;
    assert (before + (ahead + rest))[|before|..] == (before + all)[|before|..];
  }
}

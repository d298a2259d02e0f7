/** Bytes, big-endian numbers, and a connection that delivers its bytes in pieces of any size. */
module Bytes {
  import opened Collections

  type byte = x: int | 0 <= x < 256

  const TWO16: nat := 0x1_0000

  /** binary.BigEndian.PutUint16 of the low sixteen bits. */
  function PutUint16(x: nat): (s: seq<byte>)
    ensures |s| == 2
  {
    [x / 256 % 256, x % 256]
  }

  function Uint16(s: seq<byte>): (x: nat)
    requires |s| == 2
    ensures x < TWO16
  {
    s[0] as int * 256 + s[1]
  }

  lemma {:induction false} Uint16Put(x: nat)
    ensures Uint16(PutUint16(x)) == x % TWO16
  {
    var q, r := x / TWO16, x % TWO16;
    var hi, lo := r / 256, r % 256;
    assert x == (q * 256 + hi) * 256 + lo && 0 <= hi < 256;
    assert x / 256 == q * 256 + hi && x % 256 == lo;
    assert (q * 256 + hi) % 256 == hi;
  }

  lemma {:induction false} PutUint16Of(s: seq<byte>)
    requires |s| == 2
    ensures PutUint16(Uint16(s)) == s
  {
    var hi, lo: int := s[0], s[1];
    assert (hi * 256 + lo) / 256 == hi;
  }

  /** A network connection: the bytes that wait to be read, and those that were written. */
  class Conn {
    var input: seq<byte>
    var output: seq<byte>

    constructor (input: seq<byte>)
      ensures this.input == input && output == []
    {
      this.input, output := input, [];
    }

    /** Read: at least one and at most `max` of the waiting bytes; nothing at the end of the input. */
    method Read(max: nat) returns (b: seq<byte>)
      modifies this`input
      ensures b + input == old(input) && |b| <= max
      ensures max > 0 && old(input) != [] ==> b != []
    {
      b := [];
      if max > 0 && input != [] {
        var n :| 1 <= n <= max && n <= |input|;
        b := input[..n];
        input := input[n..];
      }
    }

    /** io.ReadFull: exactly n bytes however they arrive, or an error at the end of the input. */
    method ReadFull(n: nat) returns (r: Option<seq<byte>>)
      modifies this`input
      ensures n <= |old(input)| ==> r == Some(old(input)[..n]) && input == old(input)[n..]
      ensures n > |old(input)| ==> r == None && input == []
    {
      var got: seq<byte> := [];
      ghost var all := input;
      while |got| < n
        invariant |got| <= n && got + input == all
        decreases n - |got|
      {
        var b := Read(n - |got|);
        if b == [] {
          return None;
        }
        got := got + b;
      }
      assert all[..n] == got;
      return Some(got);
    }

    /** A write that may stop short, and fails if it does. */
    method TryWrite(b: seq<byte>) returns (n: nat, ok: bool)
      modifies this`output
      ensures n <= |b| && ok == (n == |b|) && output == old(output) + b[..n]
    {
      n :| 0 <= n <= |b|;
      output := output + b[..n];
      ok := n == |b|;
    }

    method Write(b: seq<byte>)
      modifies this`output
      ensures output == old(output) + b
    {
      output := output + b;
    }
  }
}

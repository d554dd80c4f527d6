/** The outside of a connection: growable byte buffers, a reader that delivers as little as it likes,
    a writer that may break, and a source of mask keys. */
module Io {
  import opened Bytes

  /** A byte buffer that is updated in place (`Vec<u8>`, `BytesMut`). */
  class ByteVec {
    var data: bytes

    constructor (data: bytes)
      ensures this.data == data
    {
      this.data := data;
    }
  }

  /** Payload data: a shared slice, a slice the writer may change, or an owned buffer. */
  datatype Storage = Shared(slice: bytes) | Unique(vec: ByteVec) | Owned(vec: ByteVec) {
    function AsRef(): bytes
      reads if Shared? then {} else {vec}
    {
      if Shared? then slice else vec.data
    }

    ghost function Repr(): set<object> { if Shared? then {} else {vec} }
  }

  class Reader {
    var unread: bytes

    constructor (stream: bytes)
      ensures unread == stream
    {
      unread := stream;
    }

    /** One `read` call: any number of bytes from one up to `max`, or none at the end of the stream. */
    method Read(max: nat) returns (chunk: bytes)
      modifies this
      ensures |chunk| <= max && old(unread) == chunk + unread
      ensures chunk == [] <==> max == 0 || old(unread) == []
    {
      var least := if max == 0 || unread == [] then 0 else 1;
      var n: nat :| least <= n && n <= max && n <= |unread|;
      chunk := unread[..n];
      unread := unread[n..];
    }

    /** Fill `dest` from index `start` on; `false` at a premature end of the stream. */
    method ReadExact(dest: ByteVec, start: nat) returns (ok: bool)
      requires start <= |dest.data|
      modifies this, dest
      ensures ok <==> |old(dest.data)| - start <= |old(unread)|
      ensures ok ==>
        var n := |old(dest.data)| - start;
        dest.data == old(dest.data)[..start] + old(unread)[..n] && unread == old(unread)[n..]
      ensures !ok ==>
        dest.data == old(dest.data)[..start] + old(unread) + old(dest.data)[start + |old(unread)|..] && unread == []
    {
      var at := start;
      while at < |dest.data|
        invariant start <= at <= |dest.data| == |old(dest.data)| && at - start <= |old(unread)|
        invariant unread == old(unread)[at - start..]
        invariant dest.data == old(dest.data)[..start] + old(unread)[..at - start] + old(dest.data)[at..]
      {
        var chunk := Read(|dest.data| - at);
        if chunk == [] {
          return false;
        }
        dest.data := dest.data[..at] + chunk + dest.data[at + |chunk|..];
        assert old(unread)[..at - start] + chunk == old(unread)[..at + |chunk| - start];
        at := at + |chunk|;
      }
      ok := true;
    }

    /** `discard_bytes`: drop up to `n` bytes; the end of the stream is no error. */
    method Discard(n: nat)
      modifies this
      ensures unread == Drop(old(unread), n)
    {
      var left := n;
      while left > 0
        invariant 0 <= left <= n && n - left <= |old(unread)| && unread == old(unread)[n - left..]
      {
        var chunk := Read(left);
        if chunk == [] {
          return;
        }
        left := left - |chunk|;
      }
    }
  }

  /** Append up to `max` bytes to `dest` with one read; `false` if there were none. */
  method Read(reader: Reader, dest: ByteVec, max: nat) returns (ok: bool)
    modifies reader, dest
    ensures 0 <= |dest.data| - |old(dest.data)| <= Min(max, |old(reader.unread)|)
    ensures var n := |dest.data| - |old(dest.data)|;
      && dest.data == old(dest.data) + old(reader.unread)[..n] && reader.unread == old(reader.unread)[n..]
      && ok == (n > 0)
    ensures !ok ==> max == 0 || old(reader.unread) == []
  {
    var i := |dest.data|;
    dest.data := dest.data + Zeros(max);
    var chunk := reader.Read(max);
    dest.data := dest.data[..i] + chunk + dest.data[i + |chunk|..];
    dest.data := dest.data[..i + |chunk|];
    assert dest.data == old(dest.data) + chunk && chunk == old(reader.unread)[..|chunk|];
    ok := chunk != [];
  }

  /** How many more bytes a writer takes that breaks once `failAt` bytes went through. */
  predicate HasRoom(failAt: Option<nat>, wire: bytes, n: nat) {
    failAt.None? || n == 0 || |wire| + n <= failAt.value
  }

  /** The wire after writing `bs`: all of it, or the part that went through before the writer broke. */
  function Accepted(failAt: Option<nat>, wire: bytes, bs: bytes): bytes {
    if HasRoom(failAt, wire, |bs|) then wire + bs
    else wire + bs[..if failAt.value <= |wire| then 0 else failAt.value - |wire|]
  }

  class Writer {
    var wire: bytes
    const failAt: Option<nat>
    const flushes: bool

    constructor (failAt: Option<nat>, flushes: bool)
      ensures wire == [] && this.failAt == failAt && this.flushes == flushes
    {
      wire, this.failAt, this.flushes := [], failAt, flushes;
    }

    method WriteAll(bs: bytes) returns (ok: bool)
      modifies this
      ensures wire == Accepted(failAt, old(wire), bs)
      ensures ok == HasRoom(failAt, old(wire), |bs|)
    {
      ok := HasRoom(failAt, wire, |bs|);
      wire := Accepted(failAt, wire, bs);
    }
  }

  /** `rand::random`: an arbitrary sequence of mask keys. */
  function KeyAt(keys: nat -> nat, i: nat): nat { keys(i) % 0x1_0000_0000 }

  class Rng {
    const keys: nat -> nat
    var drawn: nat

    constructor (keys: nat -> nat)
      ensures this.keys == keys && drawn == 0
    {
      this.keys, drawn := keys, 0;
    }

    method Next() returns (key: nat)
      modifies this
      ensures key == KeyAt(keys, old(drawn)) && drawn == old(drawn) + 1
    {
      key := KeyAt(keys, drawn);
      drawn := drawn + 1;
    }
  }
}

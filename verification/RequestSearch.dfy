/** The server handshake's search for the end of the request headers, over reads of any size. */
module RequestSearch {
  import opened Bytes
  import opened Io

  const MAX_HEADERS_SIZE: nat := 8 * 1024
  const BLOCK_SIZE: nat := 8 * 1024

  /** CR LF CR LF. */
  const TERMINATOR: bytes := [13, 10, 13, 10]

  predicate TerminatorAt(s: bytes, i: nat) { i + 4 <= |s| && s[i..i + 4] == TERMINATOR }

  /** The plain search of a whole buffer. */
  predicate HasTerminator(s: bytes) { exists i: nat :: i < |s| && TerminatorAt(s, i) }

  /** Are there two line ends at this place? (section 2.2 of RFC 9112) */
  predicate EmptyLineAt(s: bytes, i: nat) {
    i + 4 <= |s| && s[i] == s[i + 2] == '\r' as int && s[i + 1] == s[i + 3] == '\n' as int
  }

  /** The terminator, character by character. */
  lemma TerminatorMeans(s: bytes)
    ensures HasTerminator(s) <==> exists i: nat :: EmptyLineAt(s, i)
  {
    forall i: nat ensures TerminatorAt(s, i) <==> EmptyLineAt(s, i) {}
    if HasTerminator(s) {
      var i: nat :| i < |s| && TerminatorAt(s, i);
      assert EmptyLineAt(s, i);
    }
    if i: nat :| EmptyLineAt(s, i) {
      assert TerminatorAt(s, i);
    }
  }

  datatype Stop = Found | GaveUp | EndOfStream

  /** `windows(4).rev().any(..)`: look at the windows from the last one on. */
  method AnyWindow(s: bytes) returns (found: bool)
    ensures found == HasTerminator(s)
  {
    var i := |s| - 4;
    while i >= 0
      invariant i <= |s| - 4
      invariant forall j: nat | i < j :: !TerminatorAt(s, j)
    {
      if TerminatorAt(s, i) {
        return true;
      }
      i := i - 1;
    }
    found := false;
  }

  /** If a buffer without a terminator grows, a terminator can only end in the new part: backing off three bytes would
      be enough, four are. */
  lemma OnlyInTail(before: bytes, s: bytes, skip: nat)
    requires !HasTerminator(before) && before <= s && (skip == 0 || skip + 3 <= |before|)
    ensures HasTerminator(s[skip..]) <==> HasTerminator(s)
  {
    if HasTerminator(s) {
      var i: nat :| i < |s| && TerminatorAt(s, i);
      if i < skip {
        assert s[i..i + 4] == before[i..i + 4];
        assert TerminatorAt(before, i);
        assert false;
      }
      assert s[skip..][i - skip..i - skip + 4] == s[i..i + 4];
      assert TerminatorAt(s[skip..], i - skip);
    }
    if HasTerminator(s[skip..]) {
      var i: nat :| i < |s[skip..]| && TerminatorAt(s[skip..], i);
      assert s[skip..][i..i + 4] == s[skip + i..skip + i + 4];
      assert TerminatorAt(s, skip + i);
    }
  }

  /** A terminator in the beginning of a stream is a terminator in the stream. */
  lemma InPrefix(s: bytes, t: bytes)
    requires s <= t && HasTerminator(s)
    ensures HasTerminator(t)
  {
    var i: nat :| i < |s| && TerminatorAt(s, i);
    assert t[i..i + 4] == s[i..i + 4];
    assert TerminatorAt(t, i);
  }

  lemma NoTerminator()
    ensures !HasTerminator([])
  {}

  function Take(s: bytes, n: nat): bytes { s[..Min(n, |s|)] }

  /** The offset from which the next search starts. */
  function Skip(size: nat): nat { if size >= 4 then size - 4 else 0 }

  /** What a search of the new part of the buffer says about the stream. */
  lemma SearchDecides(before: bytes, buffer: bytes, unread: bytes)
    requires !HasTerminator(before) && |before| < MAX_HEADERS_SIZE && before <= buffer
    ensures var head, start := Take(buffer, MAX_HEADERS_SIZE), Take(buffer + unread, MAX_HEADERS_SIZE);
      && Skip(|before|) <= |head|
      && (HasTerminator(head[Skip(|before|)..]) <==> HasTerminator(head))
      && (HasTerminator(head) ==> HasTerminator(start))
      && (|buffer| >= MAX_HEADERS_SIZE || unread == [] ==> head == start)
  {
    hide HasTerminator;
    var head := Take(buffer, MAX_HEADERS_SIZE);
    OnlyInTail(before, head, Skip(|before|));
    if HasTerminator(head) {
      InPrefix(head, Take(buffer + unread, MAX_HEADERS_SIZE));
    }
  }

  class Server {
    const socket: Reader
    const buffer: ByteVec

    constructor (socket: Reader)
      ensures this.socket == socket && fresh(buffer)
    {
      this.socket := socket;
      buffer := new ByteVec([]);
    }

    /** One round: read a block and search its part of the buffer; `None` to go on. */
    method ReadBlock(skip: nat, ghost stream: bytes) returns (stop: Option<Stop>)
      requires buffer.data + socket.unread == stream
      requires |buffer.data| < MAX_HEADERS_SIZE && !HasTerminator(buffer.data) && skip == Skip(|buffer.data|)
      modifies socket, buffer
      ensures buffer.data + socket.unread == stream && |buffer.data| < MAX_HEADERS_SIZE + BLOCK_SIZE
      ensures match stop
        case None =>
          && |socket.unread| < |old(socket.unread)|
          && |buffer.data| < MAX_HEADERS_SIZE && !HasTerminator(buffer.data)
        case Some(Found) =>
          HasTerminator(Take(buffer.data, MAX_HEADERS_SIZE)) && HasTerminator(Take(stream, MAX_HEADERS_SIZE))
        case Some(GaveUp) => |buffer.data| >= MAX_HEADERS_SIZE && !HasTerminator(Take(stream, MAX_HEADERS_SIZE))
        case Some(EndOfStream) =>
          |buffer.data| < MAX_HEADERS_SIZE && socket.unread == [] && !HasTerminator(Take(stream, MAX_HEADERS_SIZE))
    {
      hide HasTerminator;
      ghost var before, unread := buffer.data, socket.unread;
      var ok := Read(socket, buffer, BLOCK_SIZE);
      AppendAssociates(before, unread[..|buffer.data| - |before|], socket.unread);
      SearchDecides(before, buffer.data, socket.unread);
      if !ok {
        assert buffer.data == before == Take(before, MAX_HEADERS_SIZE);
        return Some(EndOfStream);
      }
      var limit := Min(|buffer.data|, MAX_HEADERS_SIZE);
      var found := AnyWindow(buffer.data[skip..limit]);
      assert buffer.data[skip..limit] == Take(buffer.data, MAX_HEADERS_SIZE)[skip..];
      if found {
        return Some(Found);
      }
      if limit == MAX_HEADERS_SIZE {
        return Some(GaveUp);
      }
      assert Take(buffer.data, MAX_HEADERS_SIZE) == buffer.data;
      stop := None;
    }

    /** Read until the request's header terminator is in the buffer, or the header limit is reached. The search stops
        on the terminator exactly if the first 8192 bytes of the stream hold one, whatever the sizes of the reads; no
        byte is lost, and the buffer stays below 16384 bytes. */
    method ReceiveRequest() returns (stop: Stop)
      modifies socket, buffer
      ensures buffer.data + socket.unread == old(socket.unread)
      ensures |buffer.data| < 16384
      ensures stop.Found? <==> HasTerminator(Take(old(socket.unread), 8192))
      ensures stop.Found? ==> HasTerminator(Take(buffer.data, 8192))
      ensures stop.GaveUp? ==> |buffer.data| >= 8192
      ensures stop.EndOfStream? ==> |buffer.data| < 8192 && socket.unread == []
    {
      hide HasTerminator, Take;
      buffer.data := [];
      assert !HasTerminator([]) by { NoTerminator(); }
      var skip: nat := 0;
      while true
        invariant buffer.data + socket.unread == old(socket.unread)
        invariant |buffer.data| < MAX_HEADERS_SIZE && !HasTerminator(buffer.data) && skip == Skip(|buffer.data|)
        decreases |socket.unread|
      {
        var result := ReadBlock(skip, old(socket.unread));
        if result.Some? {
          return result.value;
        }
        skip := Skip(|buffer.data|);
      }
    }
  }
}

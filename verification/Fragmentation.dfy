/** Cutting data into fragments: whatever the cut and the keys, the receiver puts the data together again. */
module Fragmentation {
  import opened Bytes
  import opened Base
  import opened Io
  import opened Protocol
  import opened Reading
  import opened Reassembly

  function Concat(pieces: seq<bytes>): bytes {
    if pieces == [] then [] else pieces[0] + Concat(pieces[1..])
  }

  /** One fragment of a message, masked with its own key by a client. */
  function Fragment(opcode: OpCode, fin: bool, client: bool, key: nat, piece: bytes): Frame {
    Frame(Header(fin, false, false, false, client, opcode, if client then key else 0, |piece|), piece)
  }

  /** The fragments of a message from the one with this opcode on (section 5.4 of RFC 6455). */
  function Fragments(opcode: OpCode, pieces: seq<bytes>, client: bool, keys: nat -> nat, drawn: nat): seq<Frame>
    decreases |pieces|
  {
    if pieces == [] then []
    else
      [Fragment(opcode, |pieces| == 1, client, KeyAt(keys, drawn), pieces[0])]
      + Fragments(Continue, pieces[1..], client, keys, drawn + 1)
  }

  lemma FragmentFits(
    limits: Limits, opcode: OpCode, fin: bool, client: bool, keys: nat -> nat, drawn: nat, piece: bytes)
    requires opcode.Continue? || opcode.Text? || opcode.Binary?
    requires |piece| <= limits.maxDataSize && |piece| <= USIZE_MAX
    ensures var f := Fragment(opcode, fin, client, KeyAt(keys, drawn), piece);
      Fits(limits, f) && IsData(f) && f.payload == piece && f.header.opcode == opcode
  {}

  lemma {:induction false} FragmentsFit(
    setup: Setup, opcode: OpCode, pieces: seq<bytes>, client: bool, keys: nat -> nat, drawn: nat)
    requires opcode.Continue? || opcode.Text? || opcode.Binary?
    requires forall piece | piece in pieces :: |piece| <= setup.limits.maxDataSize && |piece| <= USIZE_MAX
    ensures var fs := Fragments(opcode, pieces, client, keys, drawn);
      && |fs| == |pieces| && AllFit(setup, fs) && Payloads(fs) == Concat(pieces)
      && Kind(fs) == if pieces == [] then None else Some(opcode)
    decreases |pieces|
  {
    hide Fits, Fragment, IsData;
    if pieces != [] {
      assert pieces[0] in pieces && forall piece | piece in pieces[1..] :: piece in pieces;
      var f, more := Fragments(opcode, pieces, client, keys, drawn)[0],
        Fragments(Continue, pieces[1..], client, keys, drawn + 1);
      FragmentsFit(setup, Continue, pieces[1..], client, keys, drawn + 1);
      FragmentFits(setup.limits, opcode, |pieces| == 1, client, keys, drawn, pieces[0]);
      assert ([f] + more)[1..] == more;
    }
  }

  /** Fragment `i` says where in its message it is. */
  lemma {:induction false} FragmentAt(
    opcode: OpCode, pieces: seq<bytes>, client: bool, keys: nat -> nat, drawn: nat, i: nat)
    requires i < |pieces| == |Fragments(opcode, pieces, client, keys, drawn)|
    ensures var f := Fragments(opcode, pieces, client, keys, drawn)[i];
      f.header.fin == (i == |pieces| - 1) && f.header.opcode == if i == 0 then opcode else Continue
    decreases |pieces|
  {
    if i > 0 {
      FragmentAt(Continue, pieces[1..], client, keys, drawn + 1, i - 1);
    }
  }

  lemma FragmentsAreMessage(
    setup: Setup, kind: OpCode, pieces: seq<bytes>, client: bool, keys: nat -> nat, drawn: nat)
    requires (kind.Text? || kind.Binary?) && pieces != []
    requires forall piece | piece in pieces :: |piece| <= setup.limits.maxDataSize && |piece| <= USIZE_MAX
    ensures IsMessage(Fragments(kind, pieces, client, keys, drawn))
  {
    hide Fragments, AllFit, Payloads, Kind;
    var fs, last := Fragments(kind, pieces, client, keys, drawn), |pieces| - 1;
    FragmentsFit(setup, kind, pieces, client, keys, drawn);
    forall i | 0 <= i < |fs| ensures IsData(fs[i]) && fs[i].header.fin == (i == last)
      ensures fs[i].header.opcode == if i == 0 then kind else Continue
    {
      FragmentAt(kind, pieces, client, keys, drawn, i);
    }
    forall i | 0 <= i < last ensures WellPlaced(fs[..last], i, false) {
      assert i > 0 ==> fs[..last][..i][0] == fs[0];
    }
    assert last > 0 ==> fs[..last][0] == fs[0];
  }

  /** Any data, cut in any way into any number of pieces, some of them possibly empty, arrives whole in one call. */
  lemma AnyCutArrives(
    setup: Setup, s: State, kind: OpCode, pieces: seq<bytes>, client: bool, keys: nat -> nat, drawn: nat, rest: bytes)
    requires Healthy(setup) && !s.closed && s.await.None?
    requires (kind.Text? || kind.Binary?) && pieces != []
    requires forall piece | piece in pieces :: |piece| <= setup.limits.maxDataSize && |piece| <= USIZE_MAX
    requires |Concat(pieces)| <= setup.maxMessageSize
    requires s.Input() == Wires(Fragments(kind, pieces, client, keys, drawn)) + rest
    ensures var (t, outcome) := Receive(setup, s);
      && outcome == Ok(DataOf(kind, |Concat(pieces)|))
      && t.message == s.message + Concat(pieces) && t.Input() == rest
  {
    hide Fragments, AllFit, IsMessage, Wires, Receive, Payloads, Kind, Drop;
    FragmentsFit(setup, kind, pieces, client, keys, drawn);
    FragmentsAreMessage(setup, kind, pieces, client, keys, drawn);
    Reassembles(setup, s, Fragments(kind, pieces, client, keys, drawn), rest);
  }
}

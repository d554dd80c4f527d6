/** The deflate extension (RFC 7692): parameter negotiation, and the frame hooks over an abstract compressor. */
module Deflate {
  import opened Bytes
  import opened Base
  import opened Io
  import opened Extension
  import Inflation

  const NAME: string := "permessage-deflate"
  const SERVER_NO_CONTEXT_TAKEOVER: string := "server_no_context_takeover"
  const SERVER_MAX_WINDOW_BITS: string := "server_max_window_bits"
  const CLIENT_NO_CONTEXT_TAKEOVER: string := "client_no_context_takeover"
  const CLIENT_MAX_WINDOW_BITS: string := "client_max_window_bits"

  /** The part of the extension that negotiation is about. */
  datatype Window = Window(client: bool, enabled: bool, params: seq<Param>, our: nat, their: nat)

  function NewWindow(client: bool): Window {
    var params :=
      if client then
        [Param(SERVER_NO_CONTEXT_TAKEOVER, None), Param(CLIENT_NO_CONTEXT_TAKEOVER, None),
         Param(CLIENT_MAX_WINDOW_BITS, None)]
      else [];
    Window(client, false, params, 15, 15)
  }

  function ParsedValue(p: Param): Option<nat> {
    if p.value.Some? then ParseU8(p.value.value) else None
  }

  /** The index of the first parameter with this name, or the number of parameters. */
  function FindParam(params: seq<Param>, name: string): (i: nat)
    ensures i <= |params| && (i < |params| ==> params[i].name == name)
    ensures forall j | 0 <= j < i :: params[j].name != name
  {
    if params == [] then 0 else if params[0].name == name then 0 else 1 + FindParam(params[1..], name)
  }

  function WithMaxServerWindowBits(w: Window, max: nat): Window {
    w.(their := max, params := w.params + [Param(SERVER_MAX_WINDOW_BITS, Some(ToDecimal(max)))])
  }

  function WithMaxClientWindowBits(w: Window, max: nat): Window {
    var p, i := Param(CLIENT_MAX_WINDOW_BITS, Some(ToDecimal(max))), FindParam(w.params, CLIENT_MAX_WINDOW_BITS);
    w.(our := max, params := if i < |w.params| then w.params[i := p] else w.params + [p])
  }

  /** `set_their_max_window_bits`: the new bound, or `None` for a rejected one. */
  function TheirBits(their: nat, p: Param, expected: Option<nat>): Option<nat> {
    match ParsedValue(p)
    case None => Some(their)
    case Some(v) =>
      if v < 8 || v > 15 || (expected.Some? && v > expected.value) then None
      else Some(if v < 9 then 9 else v)
  }

  /** One parameter of an offer, as the server takes it; `None` if it rejects the offer. */
  function ServerParam(w: Window, p: Param): Option<Window> {
    if p.name == CLIENT_MAX_WINDOW_BITS then
      match TheirBits(w.their, p, None)
      case None => None
      case Some(their) => Some(w.(their := their))
    else if p.name == SERVER_MAX_WINDOW_BITS then
      match ParsedValue(p)
      case None => None
      case Some(v) =>
        if v < 9 || v > 15 then None
        else Some(w.(params := w.params + [Param(SERVER_MAX_WINDOW_BITS, Some(ToDecimal(v)))], our := v))
    else if p.name == CLIENT_NO_CONTEXT_TAKEOVER || p.name == SERVER_NO_CONTEXT_TAKEOVER then
      Some(w.(params := w.params + [Param(p.name, None)]))
    else None
  }

  /** One parameter of a response, as the client takes it; `None` if it rejects the response. */
  function ClientParam(w: Window, p: Param): Option<Window> {
    if p.name == SERVER_NO_CONTEXT_TAKEOVER || p.name == CLIENT_NO_CONTEXT_TAKEOVER then Some(w)
    else if p.name == SERVER_MAX_WINDOW_BITS then
      match TheirBits(w.their, p, Some(w.their))
      case None => None
      case Some(their) => Some(w.(their := their))
    else if p.name == CLIENT_MAX_WINDOW_BITS then
      match ParsedValue(p)
      case None => Some(w)
      case Some(v) =>
        if v < 8 || v > 15 then None
        else
          var bound := if v < 9 then 9 else v;
          Some(w.(our := if w.our <= bound then w.our else bound))
    else None
  }

  /** `configure` from inside its loop: take the parameters in order until one is rejected. `confirmed` says
      whether the server's context takeover parameter was seen, which only the client asks for. */
  function TakeParams(w: Window, ps: seq<Param>, confirmed: bool): Window
    decreases |ps|
  {
    if ps == [] then (if w.client && !confirmed then w else w.(enabled := true))
    else
      match if w.client then ClientParam(w, ps[0]) else ServerParam(w, ps[0])
      case None => w
      case Some(w') => TakeParams(w', ps[1..], confirmed || ps[0].name == SERVER_NO_CONTEXT_TAKEOVER)
  }

  /** `Deflate::configure`. */
  function Configured(w: Window, ps: seq<Param>): Window {
    TakeParams(if w.client then w else w.(params := []), ps, false)
  }

  /** The limits of a codec whose connection was built with this extension. */
  function WithExtension(limits: Limits, w: Window): Limits {
    if w.enabled then limits.(rsv1 := true) else limits
  }

  class Deflate {
    const client: bool
    const inflate: bytes -> Option<bytes>
    const compress: (nat, bytes) -> Option<bytes>
    var enabled: bool
    var buffer: bytes
    var params: seq<Param>
    var ourMaxWindowBits: nat
    var theirMaxWindowBits: nat
    var awaitLastFragment: bool

    function Negotiated(): Window
      reads this
    {
      Window(client, enabled, params, ourMaxWindowBits, theirMaxWindowBits)
    }

    constructor (client: bool, inflate: bytes -> Option<bytes>, compress: (nat, bytes) -> Option<bytes>)
      ensures Negotiated() == NewWindow(client) && !awaitLastFragment
      ensures this.inflate == inflate && this.compress == compress
    {
      this.client, this.inflate, this.compress := client, inflate, compress;
      enabled, buffer, awaitLastFragment := false, [], false;
      params := NewWindow(client).params;
      ourMaxWindowBits, theirMaxWindowBits := 15, 15;
    }

    method SetMaxServerWindowBits(max: nat)
      requires client && 8 < max <= 15
      modifies this
      ensures Negotiated() == WithMaxServerWindowBits(old(Negotiated()), max)
      ensures awaitLastFragment == old(awaitLastFragment)
    {
      theirMaxWindowBits := max;
      params := params + [Param(SERVER_MAX_WINDOW_BITS, Some(ToDecimal(max)))];
    }

    method SetMaxClientWindowBits(max: nat)
      requires client && 8 < max <= 15
      modifies this
      ensures Negotiated() == WithMaxClientWindowBits(old(Negotiated()), max)
      ensures awaitLastFragment == old(awaitLastFragment)
    {
      ourMaxWindowBits := max;
      var i := FindParam(params, CLIENT_MAX_WINDOW_BITS);
      if i < |params| {
        params := params[i := params[i].(value := Some(ToDecimal(max)))];
      } else {
        params := params + [Param(CLIENT_MAX_WINDOW_BITS, Some(ToDecimal(max)))];
      }
    }

    method SetTheirMaxWindowBits(p: Param, expected: Option<nat>) returns (ok: bool)
      modifies this`theirMaxWindowBits
      ensures var bits := TheirBits(old(theirMaxWindowBits), p, expected);
        ok == bits.Some? && theirMaxWindowBits == if ok then bits.value else old(theirMaxWindowBits)
    {
      var parsed := ParsedValue(p);
      if parsed.Some? {
        var v := parsed.value;
        if v < 8 || v > 15 {
          return false;
        }
        if expected.Some? && v > expected.value {
          return false;
        }
        theirMaxWindowBits := if v < 9 then 9 else v;
      }
      ok := true;
    }

    method Configure(ps: seq<Param>)
      modifies this
      ensures Negotiated() == Configured(old(Negotiated()), ps)
      ensures awaitLastFragment == old(awaitLastFragment)
    {
      if client {
        ConfigureClient(ps);
      } else {
        ConfigureServer(ps);
      }
    }

    method ConfigureServer(ps: seq<Param>)
      requires !client
      modifies this
      ensures Negotiated() == Configured(old(Negotiated()), ps)
      ensures awaitLastFragment == old(awaitLastFragment)
    {
      params := [];
      ghost var confirmed := false;
      for i := 0 to |ps|
        invariant awaitLastFragment == old(awaitLastFragment)
        invariant TakeParams(Negotiated(), ps[i..], confirmed) == Configured(old(Negotiated()), ps)
      {
        var p := ps[i];
        assert ps[i..][1..] == ps[i + 1..];
        if p.name == CLIENT_MAX_WINDOW_BITS {
          var ok := SetTheirMaxWindowBits(p, None);
          if !ok {
            return;
          }
        } else if p.name == SERVER_MAX_WINDOW_BITS {
          var v := ParsedValue(p);
          if v.None? || v.value < 9 || v.value > 15 {
            return;
          }
          params := params + [Param(SERVER_MAX_WINDOW_BITS, Some(ToDecimal(v.value)))];
          ourMaxWindowBits := v.value;
        } else if p.name == CLIENT_NO_CONTEXT_TAKEOVER {
          params := params + [Param(CLIENT_NO_CONTEXT_TAKEOVER, None)];
        } else if p.name == SERVER_NO_CONTEXT_TAKEOVER {
          params := params + [Param(SERVER_NO_CONTEXT_TAKEOVER, None)];
        } else {
          return;
        }
        confirmed := confirmed || p.name == SERVER_NO_CONTEXT_TAKEOVER;
      }
      enabled := true;
    }

    method ConfigureClient(ps: seq<Param>)
      requires client
      modifies this
      ensures Negotiated() == Configured(old(Negotiated()), ps)
      ensures awaitLastFragment == old(awaitLastFragment)
    {
      var serverNoContextTakeover := false;
      for i := 0 to |ps|
        invariant awaitLastFragment == old(awaitLastFragment)
        invariant TakeParams(Negotiated(), ps[i..], serverNoContextTakeover) == Configured(old(Negotiated()), ps)
      {
        var p := ps[i];
        assert ps[i..][1..] == ps[i + 1..];
        if p.name == SERVER_NO_CONTEXT_TAKEOVER {
          serverNoContextTakeover := true;
        } else if p.name == CLIENT_NO_CONTEXT_TAKEOVER {
          // must be supported
        } else if p.name == SERVER_MAX_WINDOW_BITS {
          var ok := SetTheirMaxWindowBits(p, Some(theirMaxWindowBits));
          if !ok {
            return;
          }
        } else if p.name == CLIENT_MAX_WINDOW_BITS {
          var v := ParsedValue(p);
          if v.Some? {
            if v.value < 8 || v.value > 15 {
              return;
            }
            var bound := if v.value < 9 then 9 else v.value;
            ourMaxWindowBits := if ourMaxWindowBits <= bound then ourMaxWindowBits else bound;
          }
        } else {
          return;
        }
      }
      if !serverNoContextTakeover {
        return;
      }
      enabled := true;
    }

    /** `decode`: the message is replaced in place by its inflation. */
    method Decode(header: Header, data: ByteVec) returns (header': Header, ok: bool)
      modifies this, data
      ensures Negotiated() == old(Negotiated())
      ensures Inflation.Coded(awaitLastFragment, header', data.data, ok) ==
        Inflation.Decode(inflate, old(awaitLastFragment), header, old(data.data))
    {
      header', ok := header, true;
      if data.data == [] {
        return;
      }
      if (header.opcode.Binary? || header.opcode.Text?) && header.rsv1 {
        if !header.fin {
          awaitLastFragment := true;
          return;
        }
      } else if header.opcode.Continue? && header.fin && awaitLastFragment {
        awaitLastFragment := false;
      } else {
        return;
      }
      data.data := data.data + Inflation.TAIL;
      buffer := [];
      match inflate(data.data) {
        case None => ok := false;
        case Some(out) =>
          buffer := out;
          data.data, buffer := buffer, data.data;
          header' := header'.(rsv1 := false, payloadLen := |data.data|);
      }
    }

    function Encoder(): Inflation.Encoder
      reads this
    {
      Inflation.Encoder.Encoder(compress, ourMaxWindowBits)
    }

    /** `encode`, from the compressor's flushed output on; encoded data ends up in an owned buffer. */
    method Encode(header: Header, data: Storage) returns (header': Header, data': Storage, ok: bool)
      modifies this`buffer, data.Repr()
      ensures data' == data || (data'.Owned? && fresh(data'.vec))
      ensures data' == data <==> data.Owned? || !ok || !Inflation.Encodes(header, old(data.AsRef()))
      ensures !data.Owned? || !ok ==> data.AsRef() == old(data.AsRef())
      ensures !Inflation.Encodes(header, old(data.AsRef())) ==> ok && header' == header
      ensures Inflation.Encoded(header', data'.AsRef(), ok) == Inflation.Encode(Encoder(), header, old(data.AsRef()))
    {
      header', data', ok := header, data, true;
      if data.AsRef() == [] || !(header.opcode.Binary? || header.opcode.Text?) {
        return;
      }
      var compressed := compress(ourMaxWindowBits, data.AsRef());
      if compressed.None? || !Inflation.EndsWithTail(compressed.value) {
        ok := false;
        return;
      }
      buffer := compressed.value[..|compressed.value| - 4];
      header' := header'.(rsv1 := true, payloadLen := |buffer|);
      if data.Owned? {
        data.vec.data, buffer := buffer, data.vec.data;
      } else {
        var owned := new ByteVec(buffer);
        data', buffer := Owned(owned), [];
      }
    }
  }
}

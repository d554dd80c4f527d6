/** The `Sec-WebSocket-Extensions` header: printing extensions, and configuring extensions from a printed line. */
module Handshake {
  import opened Bytes
  import opened Extension

  /** An extension's name and the parameters it wants to send. */
  datatype Offer = Offer(name: string, params: seq<Param>)

  /** An extension as the handshake sees it: its name and its own state. */
  datatype Slot<S> = Slot(name: string, state: S)

  /** What `configure` makes of a state and parameters; `None` is an error. */
  type Configure<!S> = (S, seq<Param>) -> Option<S>

  // Strings //////////////////////////////////////////////////////////////////////////////////////

  /** Unicode white space, as `str::trim` removes it. */
  predicate IsWhitespace(c: char) {
    || '\t' <= c <= '\r' || c == ' ' || c == '\U{85}' || c == '\U{A0}' || c == '\U{1680}'
    || '\U{2000}' <= c <= '\U{200A}' || c == '\U{2028}' || c == '\U{2029}' || c == '\U{202F}' || c == '\U{205F}'
    || c == '\U{3000}'
  }

  /** `str::split` at a character: the pieces between its occurrences, at least one. */
  function Split(s: string, at: char): (pieces: seq<string>)
    ensures |pieces| >= 1
  {
    if s == "" then [""]
    else
      var rest := Split(s[1..], at);
      if s[0] == at then [""] + rest else [[s[0]] + rest[0]] + rest[1..]
  }

  function TrimStart(s: string, drop: char -> bool): string {
    if s != "" && drop(s[0]) then TrimStart(s[1..], drop) else s
  }

  function TrimEnd(s: string, drop: char -> bool): string {
    if s != "" && drop(s[|s| - 1]) then TrimEnd(s[..|s| - 1], drop) else s
  }

  function Trim(s: string): string { TrimEnd(TrimStart(s, IsWhitespace), IsWhitespace) }

  predicate IsQuote(c: char) { c == '"' }

  function TrimQuotes(s: string): string { TrimEnd(TrimStart(s, IsQuote), IsQuote) }

  function AsciiLower(c: char): char { if 'A' <= c <= 'Z' then (c as int + 32) as char else c }

  predicate EqIgnoreAsciiCase(s: string, t: string) {
    |s| == |t| && forall i | 0 <= i < |s| :: AsciiLower(s[i]) == AsciiLower(t[i])
  }

  // Printing /////////////////////////////////////////////////////////////////////////////////////

  function PrintParam(p: Param): string {
    "; " + p.name + if p.value.Some? then "=" + p.value.value else ""
  }

  function PrintParams(ps: seq<Param>): string {
    if ps == [] then "" else PrintParam(ps[0]) + PrintParams(ps[1..])
  }

  function PrintOffer(o: Offer): string { o.name + PrintParams(o.params) }

  /** The header's value for a list of extensions. */
  function Print(offers: seq<Offer>): string {
    if offers == [] then ""
    else PrintOffer(offers[0]) + if |offers| > 1 then ", " + Print(offers[1..]) else ""
  }

  /** A text buffer that is appended to in place. */
  class TextBuffer {
    var text: string

    constructor ()
      ensures text == ""
    {
      text := "";
    }
  }

  /** Write an extension's name and parameters to the given buffer. */
  method AppendOffer(o: Offer, buffer: TextBuffer)
    modifies buffer
    ensures buffer.text == old(buffer.text) + PrintOffer(o)
  {
    hide PrintParam;
    buffer.text := buffer.text + o.name;
    AppendAssociates(old(buffer.text), o.name, PrintParams(o.params));
    var j := 0;
    while j < |o.params|
      invariant j <= |o.params| && buffer.text + PrintParams(o.params[j..]) == old(buffer.text) + PrintOffer(o)
    {
      ghost var text := buffer.text;
      AppendParam(o.params[j], buffer);
      assert o.params[j..][1..] == o.params[j + 1..];
      AppendAssociates(text, PrintParam(o.params[j]), PrintParams(o.params[j + 1..]));
      j := j + 1;
    }
  }

  method AppendParam(p: Param, buffer: TextBuffer)
    modifies buffer
    ensures buffer.text == old(buffer.text) + PrintParam(p)
  {
    buffer.text := buffer.text + "; ";
    buffer.text := buffer.text + p.name;
    if p.value.Some? {
      buffer.text := buffer.text + "=";
      buffer.text := buffer.text + p.value.value;
    }
  }

  /** Write the extension header value to the given buffer. */
  method AppendExtensionHeaderValue(offers: seq<Offer>, buffer: TextBuffer)
    modifies buffer
    ensures buffer.text == old(buffer.text) + Print(offers)
  {
    hide PrintOffer;
    var i := 0;
    while i < |offers|
      invariant i <= |offers| && buffer.text + Print(offers[i..]) == old(buffer.text) + Print(offers)
    {
      assert offers[i..][1..] == offers[i + 1..];
      AppendOffer(offers[i], buffer);
      if i + 1 < |offers| {
        buffer.text := buffer.text + ", ";
      }
      i := i + 1;
    }
  }

  /** Write all extensions, if there are any, as a header line. */
  method AppendExtensions(offers: seq<Offer>, buffer: TextBuffer)
    modifies buffer
    ensures buffer.text ==
      old(buffer.text) + (if offers == [] then "" else "\r\nSec-WebSocket-Extensions: ") + Print(offers)
  {
    if offers != [] {
      buffer.text := buffer.text + "\r\nSec-WebSocket-Extensions: ";
    }
    AppendExtensionHeaderValue(offers, buffer);
  }

  // Parsing //////////////////////////////////////////////////////////////////////////////////////

  function ParseParam(s: string): Param {
    var keyValue := Split(s, '=');
    Param(Trim(keyValue[0]), if |keyValue| > 1 then Some(TrimQuotes(Trim(keyValue[1]))) else None)
  }

  function ParseParams(pieces: seq<string>): (ps: seq<Param>)
    ensures |ps| == |pieces|
  {
    seq(|pieces|, i requires 0 <= i < |pieces| => ParseParam(pieces[i]))
  }

  function ParseOffer(s: string): Offer {
    var parts := Split(s, ';');
    Offer(Trim(parts[0]), ParseParams(parts[1..]))
  }

  function ParseOffers(pieces: seq<string>): seq<Offer> {
    if pieces == [] then [] else [ParseOffer(pieces[0])] + ParseOffers(pieces[1..])
  }

  /** The index of the first extension with this name, or their number. */
  function Find<S>(slots: seq<Slot<S>>, name: string): (i: nat)
    ensures i <= |slots| && (i < |slots| ==> EqIgnoreAsciiCase(slots[i].name, name))
    ensures forall j | 0 <= j < i :: !EqIgnoreAsciiCase(slots[j].name, name)
  {
    if slots == [] || EqIgnoreAsciiCase(slots[0].name, name) then 0 else 1 + Find(slots[1..], name)
  }

  /** Configure extensions with offers in order: the first one of each name gets the parameters; the first error ends
      it. */
  function Apply<S>(slots: seq<Slot<S>>, offers: seq<Offer>, configure: Configure<S>): (r: (seq<Slot<S>>, bool))
    ensures |r.0| == |slots|
    decreases |offers|
  {
    if offers == [] then (slots, true)
    else
      var i := Find(slots, offers[0].name);
      if i == |slots| then Apply(slots, offers[1..], configure)
      else
        match configure(slots[i].state, offers[0].params)
        case None => (slots, false)
        case Some(state) => Apply(slots[i := slots[i].(state := state)], offers[1..], configure)
  }

  /** The parameters after an extension's name. */
  method CollectParams(parts: seq<string>) returns (params: seq<Param>)
    requires |parts| >= 1
    ensures params == ParseParams(parts[1..])
  {
    params := [];
    for j := 1 to |parts|
      invariant params == ParseParams(parts[1..j])
    {
      var keyValue := Split(parts[j], '=');
      var key := Trim(keyValue[0]);
      var value := if |keyValue| > 1 then Some(TrimQuotes(Trim(keyValue[1]))) else None;
      params := params + [Param(key, value)];
      hide Trim, TrimQuotes, Split;
    }
    assert parts[1..|parts|] == parts[1..];
  }

  /** Configure all extensions with the parameters of a header line. */
  method ConfigureExtensions<S>(extensions: array<Slot<S>>, line: string, configure: Configure<S>) returns (ok: bool)
    modifies extensions
    ensures (extensions[..], ok) == Apply(old(extensions[..]), ParseOffers(Split(line, ',')), configure)
  {
    hide ParseParams, Trim, EqIgnoreAsciiCase, Split;
    var pieces := Split(line, ',');
    for k := 0 to |pieces|
      invariant Apply(extensions[..], ParseOffers(pieces[k..]), configure)
        == Apply(old(extensions[..]), ParseOffers(pieces), configure)
    {
      ghost var before := extensions[..];
      assert pieces[k..][1..] == pieces[k + 1..];
      var parts := Split(pieces[k], ';');
      var i := Find(extensions[..], Trim(parts[0]));
      if i < extensions.Length {
        var params := CollectParams(parts);
        var configured := configure(extensions[i].state, params);
        if configured.None? {
          return false;
        }
        extensions[i] := extensions[i].(state := configured.value);
        assert extensions[..] == before[i := before[i].(state := configured.value)];
      }
    }
    ok := true;
  }
}

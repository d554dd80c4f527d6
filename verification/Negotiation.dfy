/** Window negotiation of the deflate extension, seen from both ends and through the printed header lines. */
module Negotiation {
  import opened Bytes
  import opened Extension
  import opened Handshake
  import opened HeaderText
  import opened Deflate
  import opened Base
  import HeaderLaws

  // Window bits //////////////////////////////////////////////////////////////////////////////////

  datatype Call = SetServer(max: nat) | SetClient(max: nat) | Configure(params: seq<Param>)

  /** The setters want a value within 9 ..= 15 and client mode. */
  predicate IsAllowed(client: bool, call: Call) {
    call.Configure? || (client && 9 <= call.max <= 15)
  }

  function AfterCall(w: Window, call: Call): Window {
    match call
    case SetServer(max) => WithMaxServerWindowBits(w, max)
    case SetClient(max) => WithMaxClientWindowBits(w, max)
    case Configure(ps) => Configured(w, ps)
  }

  function AfterCalls(w: Window, calls: seq<Call>): Window
    decreases |calls|
  {
    if calls == [] then w else AfterCalls(AfterCall(w, calls[0]), calls[1..])
  }

  predicate InRange(w: Window) { 9 <= w.our <= 15 && 9 <= w.their <= 15 }

  lemma {:induction false} TakingStaysInRange(w: Window, ps: seq<Param>, confirmed: bool)
    requires InRange(w)
    ensures var w' := TakeParams(w, ps, confirmed);
      InRange(w') && w'.client == w.client && (w.client ==> w'.our <= w.our)
    decreases |ps|
  {
    hide ParsedValue, ToDecimal;
    if ps != [] {
      var next := if w.client then ClientParam(w, ps[0]) else ServerParam(w, ps[0]);
      if next.Some? {
        TakingStaysInRange(next.value, ps[1..], confirmed || ps[0].name == SERVER_NO_CONTEXT_TAKEOVER);
      }
    }
  }

  /** Configuring never takes a window out of range, and a client never raises its own. */
  lemma ConfiguringStaysInRange(w: Window, ps: seq<Param>)
    requires InRange(w)
    ensures InRange(Configured(w, ps)) && Configured(w, ps).client == w.client
    ensures w.client ==> Configured(w, ps).our <= w.our
  {
    hide TakeParams;
    TakingStaysInRange(if w.client then w else w.(params := []), ps, false);
  }

  /** After any setter and `configure` calls, with any parameters, both windows are within 9 ..= 15. */
  lemma {:induction false} WindowsStayInRange(w: Window, calls: seq<Call>)
    requires InRange(w) && forall call | call in calls :: IsAllowed(w.client, call)
    ensures InRange(AfterCalls(w, calls)) && AfterCalls(w, calls).client == w.client
    decreases |calls|
  {
    hide TakeParams, ToDecimal, FindParam;
    if calls != [] {
      assert calls[0] in calls;
      if calls[0].Configure? {
        ConfiguringStaysInRange(w, calls[0].params);
      }
      WindowsStayInRange(AfterCall(w, calls[0]), calls[1..]);
    }
  }

  // Acceptance ///////////////////////////////////////////////////////////////////////////////////

  predicate IsTakeover(p: Param) { p.name == SERVER_NO_CONTEXT_TAKEOVER || p.name == CLIENT_NO_CONTEXT_TAKEOVER }

  predicate IsServerBits(p: Param) { p.name == SERVER_MAX_WINDOW_BITS }

  predicate IsClientBits(p: Param) { p.name == CLIENT_MAX_WINDOW_BITS }

  /** A parameter's value, if it is a number, is at least `least` and at most 15. */
  predicate IsWindow(p: Param, least: nat) { ParsedValue(p).Some? ==> least <= ParsedValue(p).value <= 15 }

  /** A parameter of an offer that a server can live with. */
  predicate IsAcceptable(p: Param) {
    || IsTakeover(p)
    || (IsClientBits(p) && IsWindow(p, 8))
    || (IsServerBits(p) && IsWindow(p, 9) && ParsedValue(p).Some?)
  }

  lemma ServerAccepts(w: Window, p: Param)
    requires !w.client
    ensures ServerParam(w, p).Some? <==> IsAcceptable(p)
    ensures ServerParam(w, p).Some? ==> !ServerParam(w, p).value.client && ServerParam(w, p).value.enabled == w.enabled
  {
    hide ToDecimal, ParseU8;
    hide SERVER_NO_CONTEXT_TAKEOVER, CLIENT_NO_CONTEXT_TAKEOVER, SERVER_MAX_WINDOW_BITS, CLIENT_MAX_WINDOW_BITS;
    NamesDiffer();
  }

  lemma {:induction false} ServerTakesAll(w: Window, ps: seq<Param>, confirmed: bool)
    requires !w.client
    ensures TakeParams(w, ps, confirmed).enabled <==> w.enabled || forall p | p in ps :: IsAcceptable(p)
    decreases |ps|
  {
    hide ServerParam, ClientParam, IsAcceptable;
    if ps != [] {
      ServerAccepts(w, ps[0]);
      if ServerParam(w, ps[0]).Some? {
        assert ps == [ps[0]] + ps[1..];
        ServerTakesAll(ServerParam(w, ps[0]).value, ps[1..], confirmed || ps[0].name == SERVER_NO_CONTEXT_TAKEOVER);
      }
    }
  }

  /** A server's extension is enabled after `configure` exactly if it was before or every parameter is acceptable: a
      second offer it rejects does not disable it again. */
  lemma ServerEnablesExactly(w: Window, ps: seq<Param>)
    requires !w.client
    ensures Configured(w, ps).enabled <==> w.enabled || forall p | p in ps :: IsAcceptable(p)
  {
    hide TakeParams, IsAcceptable;
    ServerTakesAll(w.(params := []), ps, false);
  }

  function AtLeast9(v: nat): nat { if v < 9 then 9 else v }

  // A response ///////////////////////////////////////////////////////////////////////////////////

  /** Is this a window for the client? */
  predicate GivesClientBits(p: Param) { IsClientBits(p) && ParsedValue(p).Some? }

  /** A client that took one parameter of a response. */
  lemma ClientStep(w: Window, p: Param)
    requires w.client && ClientParam(w, p).Some?
    ensures var w' := ClientParam(w, p).value;
      && w'.client && w'.enabled == w.enabled
      && w'.their == (if IsServerBits(p) && ParsedValue(p).Some? then AtLeast9(ParsedValue(p).value) else w.their)
      && w'.our ==
        (if GivesClientBits(p) && AtLeast9(ParsedValue(p).value) < w.our then AtLeast9(ParsedValue(p).value) else w.our)
  {
    hide ToDecimal, ParseU8;
    hide SERVER_NO_CONTEXT_TAKEOVER, CLIENT_NO_CONTEXT_TAKEOVER, SERVER_MAX_WINDOW_BITS, CLIENT_MAX_WINDOW_BITS;
    NamesDiffer();
  }

  /** Is `our` the smallest of `bound` and the windows that parameters give the client? */
  ghost predicate IsSmallest(our: nat, bound: nat, ps: seq<Param>) {
    && our <= bound
    && (forall p | p in ps && GivesClientBits(p) :: our <= AtLeast9(ParsedValue(p).value))
    && (our == bound || exists p :: p in ps && GivesClientBits(p) && our == AtLeast9(ParsedValue(p).value))
  }

  lemma SmallestHead(our: nat, bound: nat, p: Param, ps: seq<Param>)
    requires var v := if GivesClientBits(p) then AtLeast9(ParsedValue(p).value) else bound;
      IsSmallest(our, Min(v, bound), ps)
    ensures IsSmallest(our, bound, [p] + ps)
  {
    hide ParsedValue, AtLeast9, IsClientBits;
    assert forall q :: q in [p] + ps <==> q == p || q in ps;
    if our != bound && GivesClientBits(p) && our == AtLeast9(ParsedValue(p).value) {
      assert p in [p] + ps;
    }
  }

  lemma {:induction false} ClientUses(w: Window, ps: seq<Param>, confirmed: bool)
    requires w.client && !w.enabled && TakeParams(w, ps, confirmed).enabled
    ensures var w' := TakeParams(w, ps, confirmed);
      IsSmallest(w'.our, w.our, ps) && w'.their == OrElse(LastWindow(ps, SERVER_MAX_WINDOW_BITS), w.their)
    decreases |ps|
  {
    hide ClientParam, ServerParam, ParsedValue, AtLeast9, IsSmallest, GivesClientBits, SERVER_NO_CONTEXT_TAKEOVER;
    if ps == [] {
      assert IsSmallest(w.our, w.our, []) by { SmallestOfNone(w.our); }
    } else {
      var p, rest := ps[0], ps[1..];
      assert ps == [p] + rest;
      ClientStep(w, p);
      var w1 := ClientParam(w, p).value;
      ClientUses(w1, rest, confirmed || p.name == SERVER_NO_CONTEXT_TAKEOVER);
      SmallestHead(TakeParams(w, ps, confirmed).our, w.our, p, rest);
    }
  }

  lemma SmallestOfNone(bound: nat)
    ensures IsSmallest(bound, bound, [])
  {}

  /** What a client uses after a response that it accepted: for itself the smallest of its own window and those the
      server gave it, where 8 counts as 9, and for the server the last window in the response, if there is one. */
  lemma ClientUsesResponse(w: Window, ps: seq<Param>)
    requires w.client && !w.enabled && Configured(w, ps).enabled
    ensures IsSmallest(Configured(w, ps).our, w.our, ps)
    ensures Configured(w, ps).their == OrElse(LastWindow(ps, SERVER_MAX_WINDOW_BITS), w.their)
    ensures Configured(w, ps).params == w.params
  {
    hide TakeParams, IsSmallest, LastWindow;
    ClientUses(w, ps, false);
    ClientKeepsOffer(w, ps, false);
  }

  lemma {:induction false} ClientKeepsOffer(w: Window, ps: seq<Param>, confirmed: bool)
    requires w.client
    ensures TakeParams(w, ps, confirmed).params == w.params
    decreases |ps|
  {
    if ps != [] && ClientParam(w, ps[0]).Some? {
      ClientStep(w, ps[0]);
      ClientKeepsOffer(ClientParam(w, ps[0]).value, ps[1..], confirmed || ps[0].name == SERVER_NO_CONTEXT_TAKEOVER);
    }
  }

  // Several offers ///////////////////////////////////////////////////////////////////////////////

  /** The acceptable beginning of an offer. */
  function Taken(ps: seq<Param>): (qs: seq<Param>)
    ensures qs == ps <==> forall p | p in ps :: IsAcceptable(p)
  {
    if ps == [] || !IsAcceptable(ps[0]) then []
    else
      assert ps == [ps[0]] + ps[1..];
      [ps[0]] + Taken(ps[1..])
  }

  /** A server's answer to parameters: context takeover is repeated, its own window confirmed, the client's left out. */
  function Answer(ps: seq<Param>): seq<Param> {
    if ps == [] then []
    else
      (if IsTakeover(ps[0]) then [Param(ps[0].name, None)]
       else if IsServerBits(ps[0]) && ParsedValue(ps[0]).Some? then [ServerBits(ParsedValue(ps[0]).value)]
       else []) + Answer(ps[1..])
  }

  /** The last window among parameters of this name. */
  function LastWindow(ps: seq<Param>, name: string): Option<nat> {
    if ps == [] then None
    else
      var later := LastWindow(ps[1..], name);
      if later.Some? then later
      else if ps[0].name == name && ParsedValue(ps[0]).Some? then Some(AtLeast9(ParsedValue(ps[0]).value))
      else None
  }

  function OrElse(window: Option<nat>, default: nat): nat { if window.Some? then window.value else default }

  /** A server's window after it took these parameters, which are acceptable. */
  function Took(w: Window, ps: seq<Param>): Window {
    w.(params := w.params + Answer(ps),
       our := OrElse(LastWindow(ps, SERVER_MAX_WINDOW_BITS), w.our),
       their := OrElse(LastWindow(ps, CLIENT_MAX_WINDOW_BITS), w.their))
  }

  lemma OneParam(p: Param)
    ensures LastWindow([p], SERVER_MAX_WINDOW_BITS) ==
      if IsServerBits(p) && ParsedValue(p).Some? then Some(AtLeast9(ParsedValue(p).value)) else None
    ensures LastWindow([p], CLIENT_MAX_WINDOW_BITS) ==
      if IsClientBits(p) && ParsedValue(p).Some? then Some(AtLeast9(ParsedValue(p).value)) else None
    ensures Answer([p]) ==
      if IsTakeover(p) then [Param(p.name, None)]
      else if IsServerBits(p) && ParsedValue(p).Some? then [ServerBits(ParsedValue(p).value)] else []
  {
    hide ParsedValue, ServerBits, IsTakeover;
    hide SERVER_NO_CONTEXT_TAKEOVER, CLIENT_NO_CONTEXT_TAKEOVER, SERVER_MAX_WINDOW_BITS, CLIENT_MAX_WINDOW_BITS;
    assert [p][1..] == [];
  }

  lemma ServerStep(w: Window, p: Param)
    requires !w.client && IsAcceptable(p)
    ensures ServerParam(w, p) == Some(Took(w, [p]))
  {
    hide ToDecimal, ParseU8, LastWindow, Answer;
    hide SERVER_NO_CONTEXT_TAKEOVER, CLIENT_NO_CONTEXT_TAKEOVER, SERVER_MAX_WINDOW_BITS, CLIENT_MAX_WINDOW_BITS;
    NamesDiffer();
    OneParam(p);
    assert w.params + [] == w.params;
  }

  lemma {:induction false} LastWindowConcat(ps: seq<Param>, qs: seq<Param>, name: string)
    ensures LastWindow(ps + qs, name) ==
      if LastWindow(qs, name).Some? then LastWindow(qs, name) else LastWindow(ps, name)
  {
    hide ParsedValue;
    if ps == [] {
      assert ps + qs == qs;
    } else {
      assert (ps + qs)[0] == ps[0] && (ps + qs)[1..] == ps[1..] + qs;
      LastWindowConcat(ps[1..], qs, name);
    }
  }

  lemma TookMore(w: Window, p: Param, qs: seq<Param>)
    ensures Took(Took(w, [p]), qs) == Took(w, [p] + qs)
  {
    hide LastWindow, Answer, SERVER_MAX_WINDOW_BITS, CLIENT_MAX_WINDOW_BITS;
    LastWindowConcat([p], qs, SERVER_MAX_WINDOW_BITS);
    LastWindowConcat([p], qs, CLIENT_MAX_WINDOW_BITS);
    AnswerHead(p, qs);
    AppendAssociates(w.params, Answer([p]), Answer(qs));
  }

  lemma AnswerHead(p: Param, qs: seq<Param>)
    ensures Answer([p] + qs) == Answer([p]) + Answer(qs)
  {
    hide IsTakeover, IsServerBits, ParsedValue, ServerBits;
    assert ([p] + qs)[0] == p && ([p] + qs)[1..] == qs && [p][1..] == [];
    assert Answer([]) == [];
  }

  lemma {:induction false} ServerTakesBeginning(w: Window, ps: seq<Param>, confirmed: bool)
    requires !w.client
    ensures TakeParams(w, ps, confirmed) == Took(w, Taken(ps)).(enabled := w.enabled || Taken(ps) == ps)
    decreases |ps|
  {
    hide ServerParam, ClientParam, IsAcceptable, Answer, LastWindow, SERVER_NO_CONTEXT_TAKEOVER;
    if ps == [] {
      TookNothing(w);
    } else {
      var p, rest := ps[0], ps[1..];
      assert ps == [p] + rest;
      ServerAccepts(w, p);
      if IsAcceptable(p) {
        ServerStep(w, p);
        ServerTakesBeginning(Took(w, [p]), rest, confirmed || p.name == SERVER_NO_CONTEXT_TAKEOVER);
        TookMore(w, p, Taken(rest));
      } else {
        TookNothing(w);
      }
    }
  }

  lemma TookNothing(w: Window)
    ensures Took(w, []) == w
  {
    assert w.params + [] == w.params;
  }

  /** What a server answers and uses after an offer: the answer to its acceptable beginning, and the windows in it. */
  lemma ServerAnswers(w: Window, ps: seq<Param>)
    requires !w.client
    ensures Configured(w, ps) == Took(w.(params := []), Taken(ps)).(enabled := w.enabled || Taken(ps) == ps)
    ensures Configured(w, ps).params == Answer(Taken(ps))
  {
    hide TakeParams, Taken, Answer, LastWindow;
    ServerTakesBeginning(w.(params := []), ps, false);
    assert [] + Answer(Taken(ps)) == Answer(Taken(ps));
  }

  /** An end after several offers, or responses, for it, one after the other. */
  function ConfiguredBy(w: Window, offers: seq<seq<Param>>): Window
    decreases |offers|
  {
    if offers == [] then w else ConfiguredBy(Configured(w, offers[0]), offers[1..])
  }

  predicate IsAcceptableOffer(ps: seq<Param>) { forall p | p in ps :: IsAcceptable(p) }

  /** The acceptable beginnings of several offers. */
  function Beginnings(offers: seq<seq<Param>>): seq<Param> {
    if offers == [] then [] else Taken(offers[0]) + Beginnings(offers[1..])
  }

  predicate HasAcceptable(offers: seq<seq<Param>>) { exists ps | ps in offers :: IsAcceptableOffer(ps) }

  lemma AcceptableHead(ps: seq<Param>, rest: seq<seq<Param>>)
    ensures HasAcceptable([ps] + rest) <==> IsAcceptableOffer(ps) || HasAcceptable(rest)
    ensures !HasAcceptable([])
  {
    hide IsAcceptableOffer;
    assert forall qs :: qs in [ps] + rest <==> qs == ps || qs in rest;
  }

  /** After any offers, the server answers the acceptable beginning of the last one, is enabled if one of them was
      acceptable as a whole, and uses the windows given last in any acceptable beginning, also of a rejected offer. */
  lemma {:induction false} ServerAfterOffers(w: Window, offers: seq<seq<Param>>)
    requires !w.client && offers != []
    ensures ConfiguredBy(w, offers) == Window(
      false,
      w.enabled || HasAcceptable(offers),
      Answer(Taken(offers[|offers| - 1])),
      OrElse(LastWindow(Beginnings(offers), SERVER_MAX_WINDOW_BITS), w.our),
      OrElse(LastWindow(Beginnings(offers), CLIENT_MAX_WINDOW_BITS), w.their))
    decreases |offers|
  {
    var ps, rest := offers[0], offers[1..];
    assert Taken(ps) == ps <==> IsAcceptableOffer(ps);
    hide Configured, Taken, Answer, LastWindow, SERVER_MAX_WINDOW_BITS, CLIENT_MAX_WINDOW_BITS;
    hide IsAcceptableOffer, HasAcceptable;
    ServerAnswers(w, ps);
    AcceptableHead(ps, rest);
    assert offers == [ps] + rest;
    if rest == [] {
      assert Taken(ps) + [] == Taken(ps);
    } else {
      ServerAfterOffers(Configured(w, ps), rest);
      LastWindowConcat(Taken(ps), Beginnings(rest), SERVER_MAX_WINDOW_BITS);
      LastWindowConcat(Taken(ps), Beginnings(rest), CLIENT_MAX_WINDOW_BITS);
    }
  }

  lemma {:induction false} BeginningsSnoc(offers: seq<seq<Param>>, ps: seq<Param>)
    ensures Beginnings(offers + [ps]) == Beginnings(offers) + Taken(ps)
  {
    hide Taken;
    if offers == [] {
      assert offers + [ps] == [ps] && [ps][1..] == [];
    } else {
      assert (offers + [ps])[0] == offers[0] && (offers + [ps])[1..] == offers[1..] + [ps];
      BeginningsSnoc(offers[1..], ps);
    }
  }

  /** Earlier offers make no difference exactly if none of them enabled a server that rejects the last one, and each of
      the two windows is given by the last offer or left at 15 by the earlier ones. */
  lemma LastOfferCounts(before: seq<seq<Param>>, last: seq<Param>)
    ensures ConfiguredBy(NewWindow(false), before + [last]) == Configured(NewWindow(false), last) <==>
      && (IsAcceptableOffer(last) || !HasAcceptable(before))
      && (LastWindow(Taken(last), SERVER_MAX_WINDOW_BITS).Some?
          || OrElse(LastWindow(Beginnings(before), SERVER_MAX_WINDOW_BITS), 15) == 15)
      && (LastWindow(Taken(last), CLIENT_MAX_WINDOW_BITS).Some?
          || OrElse(LastWindow(Beginnings(before), CLIENT_MAX_WINDOW_BITS), 15) == 15)
  {
    hide Configured, ConfiguredBy, Taken, Answer, LastWindow, Beginnings, IsAcceptable;
    hide SERVER_MAX_WINDOW_BITS, CLIENT_MAX_WINDOW_BITS;
    var w, offers := NewWindow(false), before + [last];
    ServerAfterOffers(w, offers);
    ServerAnswers(w, last);
    BeginningsSnoc(before, last);
    LastWindowConcat(Beginnings(before), Taken(last), SERVER_MAX_WINDOW_BITS);
    LastWindowConcat(Beginnings(before), Taken(last), CLIENT_MAX_WINDOW_BITS);
    assert offers[|offers| - 1] == last;
    assert HasAcceptable(offers) <==> HasAcceptable(before) || IsAcceptableOffer(last) by {
      assert forall ps :: ps in offers <==> ps in before || ps == last;
    }
  }

  /** A server that was enabled by one offer answers the beginning of another one that it rejects. */
  lemma RejectedOfferAnswered()
    ensures var w := ConfiguredBy(NewWindow(false), [[ServerBits(10)], [ServerBits(12), Param("x", None)]]);
      w.enabled && w.params == [ServerBits(12)] && w.our == 12
  {
    hide ToDecimal, ParseU8;
    NamesDiffer();
    ParsesBack(10);
    ParsesBack(12);
    var first, second := [ServerBits(10)], [ServerBits(12), Param("x", None)];
    hide SERVER_NO_CONTEXT_TAKEOVER, CLIENT_NO_CONTEXT_TAKEOVER, SERVER_MAX_WINDOW_BITS, CLIENT_MAX_WINDOW_BITS;
    assert [first, second][1..] == [second] && [second][1..] == [];
  }

  /** A server window in a response, within a bound. */
  predicate IsWithin(p: Param, bound: nat) { IsServerBits(p) && ParsedValue(p).Some? ==> ParsedValue(p).value <= bound }

  /** A parameter of a response that a client can live with: a window within 8 ..= 15, and no greater server window than
      the client asked for. */
  predicate IsConfirming(p: Param, bound: nat) {
    IsWithin(p, bound) && (IsTakeover(p) || ((IsClientBits(p) || IsServerBits(p)) && IsWindow(p, 8)))
  }

  /** No server window in a response is greater than one before it. */
  predicate NeverRises(ps: seq<Param>) {
    forall i, j | 0 <= i < j < |ps| && IsServerBits(ps[i]) && ParsedValue(ps[i]).Some? ::
      IsWithin(ps[j], AtLeast9(ParsedValue(ps[i]).value))
  }

  /** The client's bound for the server's window after a parameter of the response. */
  function NextBound(bound: nat, p: Param): nat {
    if IsServerBits(p) && ParsedValue(p).Some? then AtLeast9(ParsedValue(p).value) else bound
  }

  lemma ClientAccepts(w: Window, p: Param)
    requires w.client && InRange(w)
    ensures ClientParam(w, p).Some? <==> IsConfirming(p, w.their)
    ensures var next := ClientParam(w, p);
      next.Some? ==>
        && next.value.client && InRange(next.value) && next.value.enabled == w.enabled
        && next.value.their == NextBound(w.their, p) <= w.their
  {
    hide ToDecimal, ParseU8;
    hide SERVER_NO_CONTEXT_TAKEOVER, CLIENT_NO_CONTEXT_TAKEOVER, SERVER_MAX_WINDOW_BITS, CLIENT_MAX_WINDOW_BITS;
    NamesDiffer();
  }

  ghost predicate IsAccepted(bound: nat, ps: seq<Param>, confirmed: bool) {
    && (confirmed || exists p | p in ps :: p.name == SERVER_NO_CONTEXT_TAKEOVER)
    && (forall p | p in ps :: IsConfirming(p, bound)) && NeverRises(ps)
  }

  lemma NeverRisesFrom(p: Param, rest: seq<Param>)
    ensures NeverRises([p] + rest) <==>
      NeverRises(rest)
      && (IsServerBits(p) && ParsedValue(p).Some? ==>
        forall q | q in rest :: IsWithin(q, AtLeast9(ParsedValue(p).value)))
  {
    hide ParsedValue, IsServerBits, IsWithin, AtLeast9;
    var ps := [p] + rest;
    assert forall i | 0 <= i < |rest| :: rest[i] == ps[i + 1];
    assert forall i | 0 < i < |ps| :: ps[i] == rest[i - 1];
    if NeverRises(ps) && IsServerBits(p) && ParsedValue(p).Some? {
      forall q | q in rest ensures IsWithin(q, AtLeast9(ParsedValue(p).value)) {
        var j :| 0 <= j < |rest| && rest[j] == q;
        assert ps[0] == p && ps[j + 1] == q;
      }
    }
  }

  /** The bound set by the first parameter is what the later ones must keep. */
  lemma AcceptedTail(bound: nat, p: Param, rest: seq<Param>, confirmed: bool)
    requires IsConfirming(p, bound) && NextBound(bound, p) <= bound
    ensures IsAccepted(bound, [p] + rest, confirmed)
      <==> IsAccepted(NextBound(bound, p), rest, confirmed || p.name == SERVER_NO_CONTEXT_TAKEOVER)
  {
    hide ParsedValue, IsTakeover, IsServerBits, IsClientBits, IsWindow, AtLeast9, NeverRises;
    hide SERVER_NO_CONTEXT_TAKEOVER;
    NeverRisesFrom(p, rest);
    assert forall q :: q in [p] + rest <==> q == p || q in rest;
  }

  lemma {:induction false} ClientTakesAll(w: Window, ps: seq<Param>, confirmed: bool)
    requires w.client && InRange(w)
    ensures TakeParams(w, ps, confirmed).enabled <==> w.enabled || IsAccepted(w.their, ps, confirmed)
    decreases |ps|
  {
    hide ServerParam, ClientParam, IsConfirming, InRange, NextBound;
    if ps == [] {
      assert NeverRises(ps);
    } else {
      hide NeverRises, IsAccepted;
      ClientAccepts(w, ps[0]);
      if ClientParam(w, ps[0]).Some? {
        var next := ClientParam(w, ps[0]).value;
        assert ps == [ps[0]] + ps[1..];
        AcceptedTail(w.their, ps[0], ps[1..], confirmed);
        ClientTakesAll(next, ps[1..], confirmed || ps[0].name == SERVER_NO_CONTEXT_TAKEOVER);
      } else {
        NotAccepted(w.their, ps, confirmed);
      }
    }
  }

  lemma NotAccepted(bound: nat, ps: seq<Param>, confirmed: bool)
    requires ps != [] && !IsConfirming(ps[0], bound)
    ensures !IsAccepted(bound, ps, confirmed)
  {
    assert ps[0] in ps;
  }

  /** A client's extension is enabled after `configure` exactly if it was before, or the server confirmed that it takes
      over no context, every parameter is one the client can live with, and the server windows never rise. */
  lemma ClientEnablesExactly(w: Window, ps: seq<Param>)
    requires w.client && InRange(w)
    ensures Configured(w, ps).enabled <==> w.enabled || IsAccepted(w.their, ps, false)
  {
    hide TakeParams, IsAccepted;
    ClientTakesAll(w, ps, false);
  }

  // Agreement ////////////////////////////////////////////////////////////////////////////////////

  /** The server windows a client asked for, in the order of the calls. */
  function ServerValues(calls: seq<Call>): seq<nat> {
    if calls == [] then []
    else (if calls[0].SetServer? then [calls[0].max] else []) + ServerValues(calls[1..])
  }

  /** The windows a client was given for itself, in the order of the calls. */
  function ClientValues(calls: seq<Call>): seq<nat> {
    if calls == [] then []
    else (if calls[0].SetClient? then [calls[0].max] else []) + ClientValues(calls[1..])
  }

  /** The last of the values; the default if there is none. */
  function Last(vs: seq<nat>): nat { if vs == [] then 15 else vs[|vs| - 1] }

  predicate AllEqual(vs: seq<nat>) { forall i, j | 0 <= i < j < |vs| :: vs[i] == vs[j] }

  predicate AllInRange(vs: seq<nat>) { forall v | v in vs :: 9 <= v <= 15 }

  function ServerParams(vs: seq<nat>): seq<Param> {
    if vs == [] then [] else [Param(SERVER_MAX_WINDOW_BITS, Some(ToDecimal(vs[0])))] + ServerParams(vs[1..])
  }

  function Takeover(): seq<Param> {
    [Param(SERVER_NO_CONTEXT_TAKEOVER, None), Param(CLIENT_NO_CONTEXT_TAKEOVER, None)]
  }

  function ClientBits(own: Option<nat>): Param {
    Param(CLIENT_MAX_WINDOW_BITS, if own.Some? then Some(ToDecimal(own.value)) else None)
  }

  /** A client before the handshake: the last window it was given for itself, and the server windows in order. */
  predicate IsOffering(w: Window, own: Option<nat>, vs: seq<nat>) {
    && w == Window(true, false, Takeover() + [ClientBits(own)] + ServerParams(vs),
                   if own.Some? then own.value else 15, Last(vs))
    && (own.Some? ==> 9 <= own.value <= 15) && AllInRange(vs)
  }

  lemma NamesDiffer()
    ensures SERVER_NO_CONTEXT_TAKEOVER != CLIENT_NO_CONTEXT_TAKEOVER
    ensures SERVER_NO_CONTEXT_TAKEOVER != SERVER_MAX_WINDOW_BITS
    ensures SERVER_NO_CONTEXT_TAKEOVER != CLIENT_MAX_WINDOW_BITS
    ensures CLIENT_NO_CONTEXT_TAKEOVER != SERVER_MAX_WINDOW_BITS
    ensures CLIENT_NO_CONTEXT_TAKEOVER != CLIENT_MAX_WINDOW_BITS
    ensures SERVER_MAX_WINDOW_BITS != CLIENT_MAX_WINDOW_BITS
  {
    assert |SERVER_NO_CONTEXT_TAKEOVER| == |CLIENT_NO_CONTEXT_TAKEOVER| == 26;
    assert |SERVER_MAX_WINDOW_BITS| == |CLIENT_MAX_WINDOW_BITS| == 22;
    assert SERVER_NO_CONTEXT_TAKEOVER[0] != CLIENT_NO_CONTEXT_TAKEOVER[0];
    assert SERVER_MAX_WINDOW_BITS[0] != CLIENT_MAX_WINDOW_BITS[0];
  }

  lemma {:induction false} ServerParamsSnoc(vs: seq<nat>, v: nat)
    ensures ServerParams(vs + [v]) == ServerParams(vs) + [Param(SERVER_MAX_WINDOW_BITS, Some(ToDecimal(v)))]
  {
    hide ToDecimal;
    if vs == [] {
      assert vs + [v] == [v];
    } else {
      assert (vs + [v])[0] == vs[0] && (vs + [v])[1..] == vs[1..] + [v];
      ServerParamsSnoc(vs[1..], v);
    }
  }

  lemma NewClientOffers()
    ensures IsOffering(NewWindow(true), None, [])
  {}

  lemma FindsClientBits(own: Option<nat>, vs: seq<nat>)
    ensures FindParam(Takeover() + [ClientBits(own)] + ServerParams(vs), CLIENT_MAX_WINDOW_BITS) == 2
  {
    NamesDiffer();
    var params := Takeover() + [ClientBits(own)] + ServerParams(vs);
    assert params[0].name == SERVER_NO_CONTEXT_TAKEOVER && params[1].name == CLIENT_NO_CONTEXT_TAKEOVER;
    assert params[2].name == CLIENT_MAX_WINDOW_BITS;
  }

  lemma SetterOffers(w: Window, own: Option<nat>, vs: seq<nat>, call: Call) returns (own': Option<nat>)
    requires IsOffering(w, own, vs) && IsAllowed(true, call) && !call.Configure?
    ensures IsOffering(AfterCall(w, call), own', vs + ServerValues([call]))
    ensures own' == if call.SetClient? then Some(call.max) else own
  {
    hide ToDecimal, FindParam;
    hide SERVER_NO_CONTEXT_TAKEOVER, CLIENT_NO_CONTEXT_TAKEOVER, SERVER_MAX_WINDOW_BITS, CLIENT_MAX_WINDOW_BITS;
    assert [call][1..] == [];
    if call.SetServer? {
      own' := own;
      ServerParamsSnoc(vs, call.max);
      assert w.params + [ServerBits(call.max)]
        == Takeover() + [ClientBits(own)] + (ServerParams(vs) + [ServerBits(call.max)]);
      assert vs + [call.max] == vs + ServerValues([call]);
    } else {
      own' := Some(call.max);
      FindsClientBits(own, vs);
      assert vs + [] == vs;
      assert (Takeover() + [ClientBits(own)] + ServerParams(vs))[2 := ClientBits(own')]
        == Takeover() + [ClientBits(own')] + ServerParams(vs);
    }
  }

  lemma ValuesHead(call: Call, calls: seq<Call>)
    ensures ServerValues([call] + calls) == ServerValues([call]) + ServerValues(calls)
    ensures var vs := ClientValues([call] + calls);
      if ClientValues(calls) != [] then vs != [] && Last(vs) == Last(ClientValues(calls))
      else if call.SetClient? then vs != [] && Last(vs) == call.max
      else vs == []
  {
    assert ([call] + calls)[0] == call && ([call] + calls)[1..] == calls && [call][1..] == [];
    hide ServerValues;
    assert ServerValues([]) == [] by { NoValues(); }
    LastAppended(if call.SetClient? then [call.max] else [], ClientValues(calls));
  }

  lemma NoValues()
    ensures ServerValues([]) == []
  {}

  lemma LastAppended(vs: seq<nat>, more: seq<nat>)
    ensures Last(vs + more) == if more == [] then Last(vs) else Last(more)
  {
    assert more == [] ==> vs + more == vs;
  }

  /** Whatever the setter calls, a client offers its own last window and every server window it was given. */
  lemma {:induction false} SettersOffer(w: Window, own: Option<nat>, vs: seq<nat>, calls: seq<Call>)
    returns (own': Option<nat>)
    requires IsOffering(w, own, vs) && forall call | call in calls :: IsAllowed(true, call) && !call.Configure?
    ensures IsOffering(AfterCalls(w, calls), own', vs + ServerValues(calls))
    ensures own' == if ClientValues(calls) == [] then own else Some(Last(ClientValues(calls)))
    decreases |calls|
  {
    hide IsOffering, AfterCall;
    if calls == [] {
      own' := own;
      assert vs + [] == vs;
    } else {
      assert calls[0] in calls;
      var first := ServerValues([calls[0]]);
      ValuesHead(calls[0], calls[1..]);
      assert calls == [calls[0]] + calls[1..];
      hide ServerValues, ClientValues, Last;
      own' := SetterOffers(w, own, vs, calls[0]);
      own' := SettersOffer(AfterCall(w, calls[0]), own', vs + first, calls[1..]);
      AppendAssociates(vs, first, ServerValues(calls[1..]));
    }
  }

  /** One step of `configure`. */
  lemma TakesOne(w: Window, p: Param, ps: seq<Param>, confirmed: bool)
    ensures var next := if w.client then ClientParam(w, p) else ServerParam(w, p);
      next.Some? ==>
        TakeParams(w, [p] + ps, confirmed)
        == TakeParams(next.value, ps, confirmed || p.name == SERVER_NO_CONTEXT_TAKEOVER)
  {
    hide ClientParam, ServerParam;
    assert ([p] + ps)[0] == p && ([p] + ps)[1..] == ps;
  }

  function ServerBits(v: nat): Param { Param(SERVER_MAX_WINDOW_BITS, Some(ToDecimal(v))) }

  lemma ServerTakesBits(w: Window, v: nat)
    requires 9 <= v <= 15
    ensures ServerParam(w, ServerBits(v)) == Some(w.(params := w.params + [ServerBits(v)], our := v))
    ensures ClientParam(w, ServerBits(v)) == if v <= w.their then Some(w.(their := v)) else None
    ensures ServerBits(v).name != SERVER_NO_CONTEXT_TAKEOVER
  {
    hide ToDecimal, ParseU8;
    hide SERVER_NO_CONTEXT_TAKEOVER, CLIENT_NO_CONTEXT_TAKEOVER, SERVER_MAX_WINDOW_BITS, CLIENT_MAX_WINDOW_BITS;
    NamesDiffer();
    ParsesBack(v);
  }

  lemma ServerParamsHead(vs: seq<nat>)
    requires vs != [] && AllInRange(vs)
    ensures ServerParams(vs) == [ServerBits(vs[0])] + ServerParams(vs[1..])
    ensures 9 <= vs[0] <= 15 && AllInRange(vs[1..])
  {
    hide ToDecimal;
    assert vs[0] in vs && forall v | v in vs[1..] :: v in vs;
  }

  /** A server that takes the offered server windows answers with each of them and uses the last one. */
  lemma {:induction false} ServerTakes(w: Window, vs: seq<nat>, confirmed: bool)
    requires !w.client && AllInRange(vs)
    ensures TakeParams(w, ServerParams(vs), confirmed) ==
      w.(enabled := true, params := w.params + ServerParams(vs), our := if vs == [] then w.our else Last(vs))
    decreases |vs|
  {
    if vs == [] {
      assert w.params + [] == w.params;
    } else {
      hide ServerParam, ServerBits, TakeParams, ServerParams, AllInRange;
      hide SERVER_NO_CONTEXT_TAKEOVER, CLIENT_NO_CONTEXT_TAKEOVER, SERVER_MAX_WINDOW_BITS, CLIENT_MAX_WINDOW_BITS;
      var p := ServerBits(vs[0]);
      ServerParamsHead(vs);
      ServerTakesBits(w, vs[0]);
      TakesOne(w, p, ServerParams(vs[1..]), confirmed);
      ServerTakes(w.(params := w.params + [p], our := vs[0]), vs[1..], confirmed);
      AppendAssociates(w.params, [p], ServerParams(vs[1..]));
    }
  }

  /** Does each value stay at or below the one before it, starting at `bound`? */
  predicate Descends(bound: nat, vs: seq<nat>) {
    vs == [] || (vs[0] <= bound && Descends(vs[0], vs[1..]))
  }

  lemma {:induction false} ClientTakes(w: Window, vs: seq<nat>)
    requires w.client && !w.enabled && AllInRange(vs)
    ensures var w' := TakeParams(w, ServerParams(vs), true);
      && (w'.enabled <==> Descends(w.their, vs))
      && (w'.enabled ==> w' == w.(enabled := true, their := if vs == [] then w.their else Last(vs)))
    decreases |vs|
  {
    if vs != [] {
      hide ClientParam, ServerBits, TakeParams, ServerParams, AllInRange;
      ServerParamsHead(vs);
      ServerTakesBits(w, vs[0]);
      TakesOne(w, ServerBits(vs[0]), ServerParams(vs[1..]), true);
      if vs[0] <= w.their {
        ClientTakes(w.(their := vs[0]), vs[1..]);
      } else {
        StopsAt(w, ServerBits(vs[0]), ServerParams(vs[1..]), true);
      }
    }
  }

  lemma StopsAt(w: Window, p: Param, ps: seq<Param>, confirmed: bool)
    requires w.client && ClientParam(w, p) == None
    ensures TakeParams(w, [p] + ps, confirmed) == w
  {
    hide ClientParam;
    assert ([p] + ps)[0] == p;
  }

  lemma {:induction false} DescendingBounds(bound: nat, vs: seq<nat>)
    requires Descends(bound, vs) && vs != []
    ensures forall i | 0 <= i < |vs| :: Last(vs) <= vs[i] <= bound
  {
    if |vs| > 1 {
      DescendingBounds(vs[0], vs[1..]);
      forall i | 0 <= i < |vs| ensures Last(vs) <= vs[i] <= bound {
        assert Last(vs) == Last(vs[1..]) && (i > 0 ==> vs[i] == vs[1..][i - 1]);
      }
    }
  }

  lemma {:induction false} EqualDescends(bound: nat, vs: seq<nat>)
    requires forall v | v in vs :: v == bound
    ensures Descends(bound, vs)
  {
    if vs != [] {
      assert vs[0] in vs && forall v | v in vs[1..] :: v in vs;
      EqualDescends(bound, vs[1..]);
    }
  }

  /** Values that descend from the last of them are all equal, and conversely. */
  lemma DescendsFromLast(vs: seq<nat>)
    ensures Descends(Last(vs), vs) <==> AllEqual(vs)
  {
    if vs != [] {
      if Descends(Last(vs), vs) {
        DescendingBounds(Last(vs), vs);
      } else if AllEqual(vs) {
        EqualDescends(Last(vs), vs);
      }
    }
  }

  /** The offer of a client, as the server takes it. */
  lemma ServerConfigured(w: Window, own: Option<nat>, vs: seq<nat>)
    requires IsOffering(w, own, vs)
    ensures Configured(NewWindow(false), w.params) ==
      Window(false, true, Takeover() + ServerParams(vs), Last(vs), w.our)
  {
    hide ToDecimal, ParseU8;
    hide SERVER_NO_CONTEXT_TAKEOVER, CLIENT_NO_CONTEXT_TAKEOVER, SERVER_MAX_WINDOW_BITS, CLIENT_MAX_WINDOW_BITS;
    NamesDiffer();
    var w0, p := NewWindow(false), ClientBits(own);
    var ps := [p] + ServerParams(vs);
    assert w.params == [Takeover()[0]] + ([Takeover()[1]] + ps);
    var w1, w2 := w0.(params := [Takeover()[0]]), w0.(params := Takeover());
    assert w0.params + [Takeover()[0]] == w1.params && w1.params + [Takeover()[1]] == w2.params;
    if own.Some? {
      ParsesBack(own.value);
    }
    assert ServerParam(w2, p) == Some(w2.(their := w.our));
    ServerTakes(w2.(their := w.our), vs, true);
    TakesOne(w2, p, ServerParams(vs), true);
    TakesOne(w1, Takeover()[1], ps, true);
    TakesOne(w0, Takeover()[0], [Takeover()[1]] + ps, false);
  }

  /** The server's answer, as the client takes it: it is accepted exactly if the client asked for one server window
      only, however often. */
  lemma ClientConfigured(w: Window, own: Option<nat>, vs: seq<nat>)
    requires IsOffering(w, own, vs)
    ensures var w' := Configured(w, Takeover() + ServerParams(vs));
      && (w'.enabled <==> AllEqual(vs))
      && (w'.enabled ==> w' == w.(enabled := true))
  {
    hide ToDecimal, ParseU8;
    hide SERVER_NO_CONTEXT_TAKEOVER, CLIENT_NO_CONTEXT_TAKEOVER, SERVER_MAX_WINDOW_BITS, CLIENT_MAX_WINDOW_BITS;
    assert Takeover() + ServerParams(vs) == [Takeover()[0]] + ([Takeover()[1]] + ServerParams(vs));
    TakesOne(w, Takeover()[0], [Takeover()[1]] + ServerParams(vs), false);
    TakesOne(w, Takeover()[1], ServerParams(vs), true);
    ClientTakes(w, vs);
    DescendsFromLast(vs);
  }

  // Through the printed lines ////////////////////////////////////////////////////////////////////

  function ConfigureWindow(w: Window, ps: seq<Param>): Option<Window> { Some(Configured(w, ps)) }

  /** An end after it parsed the header line of the other end. */
  function Parsed(w: Window, line: string): Window {
    Apply([Slot(NAME, w)], ParseOffers(Split(line, ',')), ConfigureWindow).0[0].state
  }

  function Line(w: Window): string { Print([Offer(NAME, w.params)]) }

  /** Both ends after the handshake. Only an enabled extension is part of the server's response. */
  function Handshaken(client: Window): (Window, Window) {
    var server := Parsed(NewWindow(false), Line(client));
    (server, if server.enabled then Parsed(client, Line(server)) else client)
  }

  lemma {:induction false} DecimalIsToken(n: nat)
    ensures IsToken(ToDecimal(n))
  {
    if n >= 10 {
      DecimalIsToken(n / 10);
    }
  }

  predicate IsNameChar(c: char) { 'a' <= c <= 'z' || c == '_' || c == '-' }

  predicate IsName(s: string) { forall i | 0 <= i < |s| :: IsNameChar(s[i]) }

  lemma NameIsToken(s: string)
    requires IsName(s)
    ensures IsToken(s)
  {}

  lemma TakeoverNames()
    ensures IsName(SERVER_NO_CONTEXT_TAKEOVER) && IsName(CLIENT_NO_CONTEXT_TAKEOVER)
  {}

  lemma OtherNames()
    ensures IsName(NAME) && IsName(SERVER_MAX_WINDOW_BITS) && IsName(CLIENT_MAX_WINDOW_BITS)
  {}

  lemma NamesAreTokens()
    ensures IsToken(NAME) && IsToken(SERVER_NO_CONTEXT_TAKEOVER) && IsToken(CLIENT_NO_CONTEXT_TAKEOVER)
    ensures IsToken(SERVER_MAX_WINDOW_BITS) && IsToken(CLIENT_MAX_WINDOW_BITS)
  {
    TakeoverNames();
    OtherNames();
    hide IsName, IsToken;
    NameIsToken(NAME);
    NameIsToken(SERVER_NO_CONTEXT_TAKEOVER);
    NameIsToken(CLIENT_NO_CONTEXT_TAKEOVER);
    NameIsToken(SERVER_MAX_WINDOW_BITS);
    NameIsToken(CLIENT_MAX_WINDOW_BITS);
  }

  lemma {:induction false} ServerParamsArePlain(vs: seq<nat>)
    ensures forall p | p in ServerParams(vs) :: IsPlainParam(p)
  {
    hide ToDecimal, IsToken, SERVER_MAX_WINDOW_BITS;
    NamesAreTokens();
    if vs != [] {
      DecimalIsToken(vs[0]);
      ServerParamsArePlain(vs[1..]);
    }
  }

  /** Parsing a printed line of plain parameters configures an end with exactly these parameters. */
  lemma ParsedConfigures(w: Window, params: seq<Param>)
    requires forall p | p in params :: IsPlainParam(p)
    ensures Parsed(w, Print([Offer(NAME, params)])) == Configured(w, params)
  {
    NamesAreTokens();
    hide IsToken, IsPlainParam, Configured, Print, Split, ParseOffers, Apply, NAME;
    OwnHeaderRoundTrip([Slot(NAME, w)], [Offer(NAME, params)], ConfigureWindow);
  }

  /** Both ends after the handshake of a client that makes this offer. */
  lemma HandshakenOf(w: Window, own: Option<nat>, vs: seq<nat>)
    requires IsOffering(w, own, vs)
    ensures var answer := Takeover() + ServerParams(vs);
      Handshaken(w) == (Window(false, true, answer, Last(vs), w.our), Configured(w, answer))
    ensures InRange(w) && 9 <= Last(vs) <= 15
  {
    assert vs != [] ==> Last(vs) in vs;
    ServerConfigured(w, own, vs);
    hide Configured, Parsed, ToDecimal, ServerParams, NewWindow;
    PlainLines(own, vs);
    ParsedConfigures(NewWindow(false), w.params);
    ParsedConfigures(w, Takeover() + ServerParams(vs));
  }

  /** Several offers of the extension on one line. */
  function Named(offers: seq<seq<Param>>): seq<Offer> {
    if offers == [] then [] else [Offer(NAME, offers[0])] + Named(offers[1..])
  }

  lemma {:induction false} AppliesNamed(w: Window, offers: seq<seq<Param>>)
    ensures Apply([Slot(NAME, w)], Named(offers), ConfigureWindow) == ([Slot(NAME, ConfiguredBy(w, offers))], true)
    decreases |offers|
  {
    hide Configured, NAME, EqIgnoreAsciiCase;
    if offers != [] {
      var slots := [Slot(NAME, w)];
      assert Find(slots, NAME) == 0 by { NamesItself(); }
      var w1 := Configured(w, offers[0]);
      assert slots[0 := slots[0].(state := w1)] == [Slot(NAME, w1)];
      AppliesNamed(w1, offers[1..]);
      AppliesHead(slots, Offer(NAME, offers[0]), Named(offers[1..]), ConfigureWindow);
    }
  }

  lemma NamesItself()
    ensures EqIgnoreAsciiCase(NAME, NAME)
  {}

  lemma {:induction false} NamedArePlain(offers: seq<seq<Param>>)
    requires forall ps, p | ps in offers && p in ps :: IsPlainParam(p)
    ensures forall o | o in Named(offers) :: IsPlain(o)
  {
    hide IsPlainParam, IsToken, NAME;
    NamesAreTokens();
    if offers != [] {
      NamedArePlain(offers[1..]);
    }
  }

  /** Several offers on a printed line configure an end one after the other. */
  lemma ParsedOffers(w: Window, offers: seq<seq<Param>>)
    requires offers != [] && forall ps, p | ps in offers && p in ps :: IsPlainParam(p)
    ensures Parsed(w, Print(Named(offers))) == ConfiguredBy(w, offers)
  {
    NamedArePlain(offers);
    assert Named(offers) != [];
    hide IsPlain, IsPlainParam, Print, Split, ParseOffers, Apply, Named, NAME, Configured;
    ParsesPrinted(Named(offers), "");
    assert "" + Print(Named(offers)) == Print(Named(offers));
    AppliesNamed(w, offers);
  }

  /** The text of the server windows on a client's line. */
  function ServerText(vs: seq<nat>): string {
    if vs == [] then "" else "; " + SERVER_MAX_WINDOW_BITS + "=" + ToDecimal(vs[0]) + ServerText(vs[1..])
  }

  lemma {:induction false} PrintsServerParams(vs: seq<nat>)
    ensures PrintParams(ServerParams(vs)) == ServerText(vs)
  {
    hide ToDecimal, SERVER_MAX_WINDOW_BITS;
    if vs != [] {
      PrintsServerParams(vs[1..]);
      var p, rest := ServerBits(vs[0]), ServerParams(vs[1..]);
      assert ([p] + rest)[0] == p && ([p] + rest)[1..] == rest;
      assert PrintParam(p) == "; " + SERVER_MAX_WINDOW_BITS + "=" + ToDecimal(vs[0]);
    }
  }

  /** The names on the lines (section 7.1 of RFC 7692). */
  lemma Spelled()
    ensures NAME == "permessage-deflate"
    ensures SERVER_NO_CONTEXT_TAKEOVER == "server_no_context_takeover"
    ensures CLIENT_NO_CONTEXT_TAKEOVER == "client_no_context_takeover"
    ensures SERVER_MAX_WINDOW_BITS == "server_max_window_bits"
    ensures CLIENT_MAX_WINDOW_BITS == "client_max_window_bits"
  {}

  /** The line a client offers. */
  lemma ClientLine(w: Window, own: Option<nat>, vs: seq<nat>)
    requires IsOffering(w, own, vs)
    ensures Line(w) ==
      NAME + (("; " + SERVER_NO_CONTEXT_TAKEOVER) + ("; " + CLIENT_NO_CONTEXT_TAKEOVER)
      + ("; " + CLIENT_MAX_WINDOW_BITS + if own.Some? then "=" + ToDecimal(own.value) else "") + ServerText(vs))
  {
    hide ToDecimal, ServerText, NAME, ServerParams;
    hide SERVER_NO_CONTEXT_TAKEOVER, CLIENT_NO_CONTEXT_TAKEOVER, SERVER_MAX_WINDOW_BITS, CLIENT_MAX_WINDOW_BITS;
    PrintsServerParams(vs);
    PrintOne([Offer(NAME, w.params)]);
    var one, two := Takeover()[0], Takeover()[1];
    assert Takeover() == [one] + [two];
    PrintsParams(Takeover() + [ClientBits(own)], ServerParams(vs));
    PrintsParams(Takeover(), [ClientBits(own)]);
    PrintsParams([one], [two]);
    OneParamText(one);
    OneParamText(two);
    OneParamText(ClientBits(own));
    hide PrintParams;
    TakeoverText(SERVER_NO_CONTEXT_TAKEOVER);
    TakeoverText(CLIENT_NO_CONTEXT_TAKEOVER);
  }

  lemma TakeoverText(name: string)
    ensures PrintParam(Param(name, None)) == "; " + name
  {}

  lemma {:induction false} PrintsParams(ps: seq<Param>, qs: seq<Param>)
    ensures PrintParams(ps + qs) == PrintParams(ps) + PrintParams(qs)
  {
    hide PrintParam;
    if ps == [] {
      assert ps + qs == qs;
    } else {
      assert (ps + qs)[0] == ps[0] && (ps + qs)[1..] == ps[1..] + qs;
      PrintsParams(ps[1..], qs);
      AppendAssociates(PrintParam(ps[0]), PrintParams(ps[1..]), PrintParams(qs));
    }
  }

  lemma OneParamText(p: Param)
    ensures PrintParams([p]) == PrintParam(p)
  {
    hide PrintParam;
    assert [p][1..] == [];
  }

  /** Negotiation agreement: whatever setters were called on the client, the server enables the extension, and the
      client does exactly if all server windows it was given are equal. The server uses the last window it was asked
      for, and bounds the client by the last window the client was given; if the client is enabled, it does the same. */
  lemma Agreement(calls: seq<Call>)
    requires forall call | call in calls :: IsAllowed(true, call) && !call.Configure?
    ensures var (server, client) := Handshaken(AfterCalls(NewWindow(true), calls));
      && server.enabled
      && (client.enabled <==> AllEqual(ServerValues(calls)))
      && server.our == Last(ServerValues(calls)) && server.their == Last(ClientValues(calls))
      && (client.enabled ==> client.their == server.our && client.our == server.their)
      && InRange(server) && InRange(client)
  {
    NewClientOffers();
    var own := SettersOffer(NewWindow(true), None, [], calls);
    var w, vs := AfterCalls(NewWindow(true), calls), ServerValues(calls);
    assert [] + vs == vs;
    hide AfterCalls, ServerValues, NewWindow, Configured, Handshaken, ServerParams, ToDecimal, Takeover;
    HandshakenOf(w, own, vs);
    ClientConfigured(w, own, vs);
    ConfiguringStaysInRange(w, Takeover() + ServerParams(vs));
  }

  lemma PlainLines(own: Option<nat>, vs: seq<nat>)
    ensures forall p | p in Takeover() + [ClientBits(own)] + ServerParams(vs) :: IsPlainParam(p)
    ensures forall p | p in Takeover() + ServerParams(vs) :: IsPlainParam(p)
  {
    NamesAreTokens();
    hide ToDecimal, IsToken, SERVER_NO_CONTEXT_TAKEOVER, CLIENT_NO_CONTEXT_TAKEOVER, CLIENT_MAX_WINDOW_BITS;
    ServerParamsArePlain(vs);
    if own.Some? {
      DecimalIsToken(own.value);
    }
  }

  /** After the handshake, a codec built with an end's extension decodes a compressed frame's header exactly if that
      extension is enabled; for any other header the extension makes no difference. */
  lemma CompressedFrameAccepted(limits: Limits, w: Window, h: Header, tail: bytes)
    requires !limits.rsv1
    ensures var bs := EncodeHeader(h) + tail;
      && (h.rsv1 && Admits(limits.(rsv1 := true), h) ==>
        (DecodeHeader(WithExtension(limits, w), bs) == Done(h, |EncodeHeader(h)|) <==> w.enabled))
      && (!h.rsv1 ==>
        (DecodeHeader(WithExtension(limits, w), bs) == Done(h, |EncodeHeader(h)|)
         <==> DecodeHeader(limits, bs) == Done(h, |EncodeHeader(h)|)))
  {
    hide DecodeHeader, EncodeHeader;
    HeaderLaws.HeaderRoundTripExactly(WithExtension(limits, w), h, tail);
    HeaderLaws.HeaderRoundTripExactly(limits, h, tail);
  }
}

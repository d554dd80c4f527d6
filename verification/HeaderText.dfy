/** Printing extensions and parsing the line undo each other. */
module HeaderText {
  import opened Bytes
  import opened Extension
  import opened Handshake

  /** The characters of a token: no separator, no quote, no white space. */
  predicate IsTokenChar(c: char) {
    c != ',' && c != ';' && c != '=' && c != '"' && !IsWhitespace(c)
  }

  predicate IsToken(s: string) { forall i | 0 <= i < |s| :: IsTokenChar(s[i]) }

  predicate IsPlainParam(p: Param) { IsToken(p.name) && (p.value.Some? ==> IsToken(p.value.value)) }

  /** An extension whose name, parameter names and values are tokens. */
  predicate IsPlain(o: Offer) { IsToken(o.name) && forall p | p in o.params :: IsPlainParam(p) }

  predicate Lacks(s: string, c: char) { forall i | 0 <= i < |s| :: s[i] != c }

  /** A piece without the separator, then a separator. */
  lemma {:induction false} SplitAt(piece: string, c: char, rest: string)
    requires Lacks(piece, c)
    ensures Split(piece + [c] + rest, c) == [piece] + Split(rest, c)
  {
    var s := piece + [c] + rest;
    if piece == "" {
      assert s[1..] == rest;
    } else {
      assert s[1..] == piece[1..] + [c] + rest;
      SplitAt(piece[1..], c, rest);
      assert [s[0]] + piece[1..] == piece && ([piece[1..]] + Split(rest, c))[1..] == Split(rest, c);
    }
  }

  lemma {:induction false} SplitNone(piece: string, c: char)
    requires Lacks(piece, c)
    ensures Split(piece, c) == [piece]
  {
    if piece != "" {
      SplitNone(piece[1..], c);
      assert [piece[0]] + piece[1..] == piece;
    }
  }

  /** White space in front of a token is trimmed, and nothing else. */
  lemma TrimToken(token: string)
    requires IsToken(token)
    ensures Trim(token) == token && Trim(" " + token) == token && TrimQuotes(token) == token
  {
    assert (" " + token)[1..] == token;
    hide IsWhitespace;
    assert IsWhitespace(' ') by { Space(); }
  }

  lemma Space()
    ensures IsWhitespace(' ')
  {}

  /** What follows the semicolon of a printed parameter. */
  function Body(p: Param): string {
    " " + p.name + if p.value.Some? then "=" + p.value.value else ""
  }

  lemma ParsesParam(p: Param)
    requires IsPlainParam(p)
    ensures ParseParam(Body(p)) == p
  {
    hide Trim, TrimQuotes, IsWhitespace;
    TrimToken(p.name);
    var key := " " + p.name;
    if p.value.Some? {
      assert Body(p) == key + ['='] + p.value.value;
      SplitAt(key, '=', p.value.value);
      SplitNone(p.value.value, '=');
      TrimToken(p.value.value);
    } else {
      assert Body(p) == key;
      SplitNone(key, '=');
    }
  }

  function Bodies(ps: seq<Param>): seq<string> {
    if ps == [] then [] else [Body(ps[0])] + Bodies(ps[1..])
  }

  lemma PrintedBody(p: Param)
    ensures PrintParam(p) == [';'] + Body(p)
    ensures IsPlainParam(p) ==> Lacks(Body(p), ';')
  {}

  /** Printed parameters after a piece split into the piece and their bodies. */
  lemma {:induction false} SplitsParams(piece: string, ps: seq<Param>)
    requires Lacks(piece, ';') && forall p | p in ps :: IsPlainParam(p)
    ensures Split(piece + PrintParams(ps), ';') == [piece] + Bodies(ps)
    decreases |ps|
  {
    hide Split, Body, PrintParam, IsPlainParam;
    if ps == [] {
      assert piece + PrintParams(ps) == piece;
      SplitNone(piece, ';');
    } else {
      var p := ps[0];
      assert p in ps;
      var rest := Body(p) + PrintParams(ps[1..]);
      PrintedBody(p);
      assert piece + PrintParams(ps) == piece + [';'] + rest;
      SplitAt(piece, ';', rest);
      SplitsParams(Body(p), ps[1..]);
    }
  }

  lemma {:induction false} ParsesBodies(ps: seq<Param>)
    requires forall p | p in ps :: IsPlainParam(p)
    ensures ParseParams(Bodies(ps)) == ps
  {
    hide ParseParam, Body, IsPlainParam;
    if ps != [] {
      assert ps[0] in ps;
      ParsesParam(ps[0]);
      ParsesBodies(ps[1..]);
      var pieces := Bodies(ps);
      assert pieces[1..] == Bodies(ps[1..]);
      forall i | 0 <= i < |pieces| ensures ParseParams(pieces)[i] == ps[i] {
        if i > 0 {
          assert ParseParams(pieces[1..])[i - 1] == ps[1..][i - 1];
        }
      }
    }
  }

  /** A printed extension, with or without a space in front, parses to itself. */
  lemma ParsesOffer(o: Offer, front: string)
    requires IsPlain(o) && (front == "" || front == " ")
    ensures ParseOffer(front + PrintOffer(o)) == o
  {
    hide Trim, Split, ParseParams, IsWhitespace, IsPlainParam;
    TrimToken(o.name);
    var piece := front + o.name;
    assert Lacks(piece, ';');
    assert front + PrintOffer(o) == piece + PrintParams(o.params);
    SplitsParams(piece, o.params);
    ParsesBodies(o.params);
    assert Trim(piece) == o.name by { assert "" + o.name == o.name; }
    assert ([piece] + Bodies(o.params))[1..] == Bodies(o.params);
  }

  lemma {:induction false} ParamsLackComma(ps: seq<Param>)
    requires forall p | p in ps :: IsPlainParam(p)
    ensures Lacks(PrintParams(ps), ',')
  {
    if ps != [] {
      assert ps[0] in ps;
      assert Lacks(PrintParam(ps[0]), ',');
      ParamsLackComma(ps[1..]);
    }
  }

  lemma ParsesLast(o: Offer, front: string)
    requires IsPlain(o) && (front == "" || front == " ")
    ensures ParseOffers(Split(front + Print([o]), ',')) == [o]
  {
    OfferLacksComma(o, front);
    ParsesOffer(o, front);
    hide Split, ParseOffer, PrintOffer, IsPlain, Lacks;
    var piece := front + PrintOffer(o);
    PrintOne([o]);
    SplitNone(piece, ',');
    ParsesOne(piece, []);
    ParsesNone();
  }

  lemma ParsesMore(o: Offer, rest: seq<Offer>, front: string)
    requires IsPlain(o) && rest != [] && (front == "" || front == " ")
    ensures ParseOffers(Split(front + Print([o] + rest), ',')) ==
      [o] + ParseOffers(Split(" " + Print(rest), ','))
  {
    OfferLacksComma(o, front);
    ParsesOffer(o, front);
    hide Split, ParseOffer, PrintOffer, IsPlain, Lacks, Print, ParseOffers;
    var piece, tail := front + PrintOffer(o), " " + Print(rest);
    PrintHead([o] + rest);
    assert ([o] + rest)[0] == o && ([o] + rest)[1..] == rest;
    AppendAssociates(front, PrintOffer(o), [','] + tail);
    AppendAssociates(piece, [','], tail);
    SplitAt(piece, ',', tail);
    ParsesOne(piece, Split(tail, ','));
  }

  /** Parsing the printed line gives back the extensions with exactly their parameters. */
  lemma {:induction false} ParsesPrinted(offers: seq<Offer>, front: string)
    requires offers != [] && (forall o | o in offers :: IsPlain(o)) && (front == "" || front == " ")
    ensures ParseOffers(Split(front + Print(offers), ',')) == offers
    decreases |offers|
  {
    hide Split, ParseOffers, Print, IsPlain;
    var o, rest := offers[0], offers[1..];
    assert o in offers && forall x | x in rest :: x in offers;
    assert offers == [o] + rest;
    if rest == [] {
      assert offers == [o];
      ParsesLast(o, front);
    } else {
      ParsesPrinted(rest, " ");
      ParsesMore(o, rest, front);
    }
  }

  lemma ParsesNone()
    ensures ParseOffers([]) == []
  {}

  lemma PrintOne(offers: seq<Offer>)
    requires |offers| == 1
    ensures Print(offers) == PrintOffer(offers[0])
  {
    hide PrintOffer;
  }

  lemma PrintHead(offers: seq<Offer>)
    requires |offers| > 1
    ensures Print(offers) == PrintOffer(offers[0]) + ([','] + (" " + Print(offers[1..])))
  {
    hide PrintOffer;
    assert ", " == [','] + " ";
    AppendAssociates([','], " ", Print(offers[1..]));
  }

  lemma ParsesOne(piece: string, pieces: seq<string>)
    ensures ParseOffers([piece] + pieces) == [ParseOffer(piece)] + ParseOffers(pieces)
  {
    hide ParseOffer;
    assert ([piece] + pieces)[0] == piece && ([piece] + pieces)[1..] == pieces;
  }

  lemma OfferLacksComma(o: Offer, front: string)
    requires IsPlain(o) && (front == "" || front == " ")
    ensures Lacks(front + PrintOffer(o), ',')
  {
    ParamsLackComma(o.params);
  }

  // Any offers ///////////////////////////////////////////////////////////////////////////////////

  /** The parameters of the offers that go to extension `i`, in order. */
  function Addressed<S>(slots: seq<Slot<S>>, offers: seq<Offer>, i: nat): seq<seq<Param>> {
    if offers == [] then []
    else
      (if Find(slots, offers[0].name) == i then [offers[0].params] else []) + Addressed(slots, offers[1..], i)
  }

  /** Configure one state with several lists of parameters, one after the other. */
  function ConfigureAll<S>(state: S, all: seq<seq<Param>>, configure: Configure<S>): Option<S>
    decreases |all|
  {
    if all == [] then Some(state)
    else
      match configure(state, all[0])
      case None => None
      case Some(next) => ConfigureAll(next, all[1..], configure)
  }

  lemma {:induction false} SameFind<S>(slots: seq<Slot<S>>, slots': seq<Slot<S>>, name: string)
    requires |slots| == |slots'| && forall i | 0 <= i < |slots| :: slots[i].name == slots'[i].name
    ensures Find(slots, name) == Find(slots', name)
  {
    hide EqIgnoreAsciiCase;
    if slots != [] && !EqIgnoreAsciiCase(slots[0].name, name) {
      SameFind(slots[1..], slots'[1..], name);
    }
  }

  lemma {:induction false} SameAddressed<S>(slots: seq<Slot<S>>, slots': seq<Slot<S>>, offers: seq<Offer>, i: nat)
    requires |slots| == |slots'| && forall i | 0 <= i < |slots| :: slots[i].name == slots'[i].name
    ensures Addressed(slots, offers, i) == Addressed(slots', offers, i)
  {
    hide Find;
    if offers != [] {
      SameFind(slots, slots', offers[0].name);
      SameAddressed(slots, slots', offers[1..], i);
    }
  }

  lemma AddressedHead<S>(slots: seq<Slot<S>>, o: Offer, offers: seq<Offer>, i: nat)
    ensures Addressed(slots, [o] + offers, i) ==
      (if Find(slots, o.name) == i then [o.params] else []) + Addressed(slots, offers, i)
  {
    hide Find;
    assert ([o] + offers)[0] == o && ([o] + offers)[1..] == offers;
  }

  lemma ConfigureAllHead<S>(state: S, params: seq<Param>, all: seq<seq<Param>>, configure: Configure<S>)
    requires configure(state, params).Some?
    ensures ConfigureAll(state, [params] + all, configure)
      == ConfigureAll(configure(state, params).value, all, configure)
  {
    assert ([params] + all)[0] == params && ([params] + all)[1..] == all;
  }

  /** Is extension `i` configured with exactly what was addressed to it? */
  ghost predicate ConfiguredWith<S>(
    slots: seq<Slot<S>>, offers: seq<Offer>, configure: Configure<S>, after: seq<Slot<S>>, i: nat)
    requires i < |slots| == |after|
  {
    && after[i].name == slots[i].name
    && ConfigureAll(slots[i].state, Addressed(slots, offers, i), configure) == Some(after[i].state)
  }

  /** After `k` accepted offers, is every extension configured with what was addressed to it, and is the next offer, if
      there is one, the one that was refused? */
  ghost predicate ConfiguredUpTo<S>(
    slots: seq<Slot<S>>, offers: seq<Offer>, k: nat, configure: Configure<S>, after: seq<Slot<S>>, ok: bool)
  {
    && k <= |offers| && |after| == |slots|
    && (forall i | 0 <= i < |slots| :: ConfiguredWith(slots, offers[..k], configure, after, i))
    && (ok <==> k == |offers|)
    && (!ok ==>
      var j := Find(slots, offers[k].name);
      j < |slots| && configure(after[j].state, offers[k].params) == None)
  }

  /** The extensions after one offer; `None` if it was refused. */
  function ApplyOne<S>(slots: seq<Slot<S>>, o: Offer, configure: Configure<S>): Option<seq<Slot<S>>> {
    var i := Find(slots, o.name);
    if i == |slots| then Some(slots)
    else
      match configure(slots[i].state, o.params)
      case None => None
      case Some(state) => Some(slots[i := slots[i].(state := state)])
  }

  lemma AppliesHead<S>(slots: seq<Slot<S>>, o: Offer, offers: seq<Offer>, configure: Configure<S>)
    ensures Apply(slots, [o] + offers, configure) ==
      match ApplyOne(slots, o, configure)
      case None => (slots, false)
      case Some(slots') => Apply(slots', offers, configure)
  {
    hide Find;
    assert ([o] + offers)[0] == o && ([o] + offers)[1..] == offers;
  }

  /** One more offer in front. */
  lemma ConfiguredHead<S>(
    slots: seq<Slot<S>>, slots': seq<Slot<S>>, o: Offer, offers: seq<Offer>, configure: Configure<S>,
    after: seq<Slot<S>>, i: nat)
    requires ApplyOne(slots, o, configure) == Some(slots') && i < |slots| == |after|
    requires |slots'| == |slots| && ConfiguredWith(slots', offers, configure, after, i)
    ensures ConfiguredWith(slots, [o] + offers, configure, after, i)
  {
    hide Find, Addressed, ConfigureAll;
    AddressedHead(slots, o, offers, i);
    SameAddressed(slots, slots', offers, i);
    var all := Addressed(slots, offers, i);
    assert [] + all == all;
    if Find(slots, o.name) == i {
      ConfigureAllHead(slots[i].state, o.params, all, configure);
    }
  }

  /** Whatever the offers, their order and the extensions: each extension is configured with exactly the parameters of
      the offers that name it, in their order, and nobody with anything else, until an offer is refused. */
  lemma {:induction false} AppliesEach<S>(slots: seq<Slot<S>>, offers: seq<Offer>, configure: Configure<S>)
    returns (k: nat)
    ensures var (after, ok) := Apply(slots, offers, configure);
      ConfiguredUpTo(slots, offers, k, configure, after, ok)
    decreases |offers|
  {
    hide Find, Apply, Addressed, ConfigureAll, ConfiguredWith, ApplyOne;
    k := 0;
    if offers == [] {
      NothingApplied(slots, configure);
    } else {
      var o, rest := offers[0], offers[1..];
      assert offers == [o] + rest;
      AppliesHead(slots, o, rest, configure);
      var next := ApplyOne(slots, o, configure);
      NextSlots(slots, o, configure);
      if next.None? {
        NothingApplied(slots, configure);
        assert offers[..0] == [];
      } else {
        var slots' := next.value;
        var after := Apply(slots', rest, configure).0;
        k := AppliesEach(slots', rest, configure);
        var accepted := offers[..k + 1];
        assert accepted == [o] + rest[..k];
        forall i | 0 <= i < |slots| ensures ConfiguredWith(slots, accepted, configure, after, i) {
          ConfiguredHead(slots, slots', o, rest[..k], configure, after, i);
        }
        if k < |rest| {
          SameFind(slots, slots', rest[k].name);
        }
        k := k + 1;
      }
    }
  }

  lemma NothingApplied<S>(slots: seq<Slot<S>>, configure: Configure<S>)
    ensures Apply(slots, [], configure) == (slots, true)
    ensures forall i | 0 <= i < |slots| :: ConfiguredWith(slots, [], configure, slots, i)
  {}

  lemma NextSlots<S>(slots: seq<Slot<S>>, o: Offer, configure: Configure<S>)
    ensures var next := ApplyOne(slots, o, configure);
      match next
      case None =>
        var j := Find(slots, o.name);
        j < |slots| && configure(slots[j].state, o.params) == None
      case Some(slots') => |slots'| == |slots| && forall i | 0 <= i < |slots| :: slots'[i].name == slots[i].name
  {
    hide Find;
  }

  /** The header round trip: configuring from a printed line does to each extension what `configure` does with exactly
      the printed parameters of the offers that name it, in order, until one is refused. */
  lemma HeaderRoundTrip<S>(slots: seq<Slot<S>>, offers: seq<Offer>, configure: Configure<S>) returns (k: nat)
    requires offers != [] && forall o | o in offers :: IsPlain(o)
    ensures var (after, ok) := Apply(slots, ParseOffers(Split(Print(offers), ',')), configure);
      ConfiguredUpTo(slots, offers, k, configure, after, ok)
  {
    hide Split, Apply, IsPlain, ConfiguredUpTo;
    ParsesPrinted(offers, "");
    assert "" + Print(offers) == Print(offers);
    k := AppliesEach(slots, offers, configure);
  }

  // The extensions' own offers ///////////////////////////////////////////////////////////////////

  /** No two extensions have the same name, ignoring case. */
  predicate DistinctNames<S>(slots: seq<Slot<S>>) {
    forall i, j | 0 <= i < j < |slots| :: !EqIgnoreAsciiCase(slots[i].name, slots[j].name)
  }

  /** The offers of extensions, in order; names may differ in case. */
  predicate OffersOf<S>(offers: seq<Offer>, slots: seq<Slot<S>>) {
    |offers| == |slots| && forall i | 0 <= i < |slots| :: EqIgnoreAsciiCase(slots[i].name, offers[i].name)
  }

  lemma FindsNamed<S>(slots: seq<Slot<S>>, i: nat, name: string)
    requires DistinctNames(slots) && i < |slots| && EqIgnoreAsciiCase(slots[i].name, name)
    ensures Find(slots, name) == i
  {
    var j := Find(slots, name);
    if j < i {
      assert EqIgnoreAsciiCase(slots[j].name, slots[i].name);
    }
  }

  /** Do the extensions from `k` up to and including `i` accept their offers? */
  predicate AllAccept<S>(slots: seq<Slot<S>>, offers: seq<Offer>, k: nat, i: nat, configure: Configure<S>)
    requires |offers| == |slots| && i < |slots|
  {
    forall j | k <= j <= i :: configure(slots[j].state, offers[j].params).Some?
  }

  /** Configuring from the offers of the extensions themselves calls `configure` once per extension, in order, with
      that extension's parameters, until the first error. `k` extensions are already done. */
  lemma {:induction false} AppliesInOrder<S>(
    slots: seq<Slot<S>>, offers: seq<Offer>, k: nat, configure: Configure<S>)
    requires DistinctNames(slots) && OffersOf(offers, slots) && k <= |slots|
    ensures var (after, ok) := Apply(slots, offers[k..], configure);
      && |after| == |slots|
      && (ok <==> forall i | k <= i < |slots| :: configure(slots[i].state, offers[i].params).Some?)
      && (forall i | 0 <= i < k :: after[i] == slots[i])
      && (forall i | k <= i < |slots| ::
        after[i] ==
          if AllAccept(slots, offers, k, i, configure) then
            slots[i].(state := configure(slots[i].state, offers[i].params).value)
          else slots[i])
    decreases |slots| - k
  {
    hide EqIgnoreAsciiCase;
    if k < |slots| {
      FindsNamed(slots, k, offers[k].name);
      assert offers[k..][0] == offers[k] && offers[k..][1..] == offers[k + 1..];
      var state := configure(slots[k].state, offers[k].params);
      if state.Some? {
        var slots' := slots[k := slots[k].(state := state.value)];
        AppliesInOrder(slots', offers, k + 1, configure);
        var (after, ok) := Apply(slots', offers[k + 1..], configure);
        assert after[k] == slots'[k];
        forall i | k + 1 <= i < |slots|
          ensures AllAccept(slots', offers, k + 1, i, configure) == AllAccept(slots, offers, k, i, configure)
        {
          assert forall j | k < j <= i :: slots'[j] == slots[j];
        }
      }
    }
  }

  /** Printed by the extensions themselves, the line configures each of them once, in order, until one refuses. */
  lemma OwnHeaderRoundTrip<S>(slots: seq<Slot<S>>, offers: seq<Offer>, configure: Configure<S>)
    requires DistinctNames(slots) && OffersOf(offers, slots) && offers != []
    requires forall o | o in offers :: IsPlain(o)
    ensures var (after, ok) := Apply(slots, ParseOffers(Split(Print(offers), ',')), configure);
      && |after| == |slots|
      && (ok <==> forall i | 0 <= i < |slots| :: configure(slots[i].state, offers[i].params).Some?)
      && (forall i | 0 <= i < |slots| ::
        after[i] ==
          if AllAccept(slots, offers, 0, i, configure) then
            slots[i].(state := configure(slots[i].state, offers[i].params).value)
          else slots[i])
  {
    hide Split, Apply, IsPlain, DistinctNames, AllAccept;
    ParsesPrinted(offers, "");
    assert "" + Print(offers) == Print(offers);
    assert offers[0..] == offers;
    AppliesInOrder(slots, offers, 0, configure);
  }

  // Other spellings //////////////////////////////////////////////////////////////////////////////

  predicate All(s: string, test: char -> bool) { forall i | 0 <= i < |s| :: test(s[i]) }

  lemma {:induction false} TrimStartDrops(front: string, s: string, drop: char -> bool)
    requires All(front, drop) && (s == "" || !drop(s[0]))
    ensures TrimStart(front + s, drop) == s
  {
    if front == "" {
      assert front + s == s;
    } else {
      assert (front + s)[1..] == front[1..] + s;
      TrimStartDrops(front[1..], s, drop);
    }
  }

  lemma {:induction false} TrimEndDrops(s: string, back: string, drop: char -> bool)
    requires All(back, drop) && (s == "" || !drop(s[|s| - 1]))
    ensures TrimEnd(s + back, drop) == s
  {
    if back == "" {
      assert s + back == s;
    } else {
      var k := |back| - 1;
      assert (s + back)[..|s| + k] == s + back[..k];
      TrimEndDrops(s, back[..k], drop);
    }
  }

  /** Is there nothing to trim? */
  predicate HasEdges(word: string, drop: char -> bool) {
    word == "" || (!drop(word[0]) && !drop(word[|word| - 1]))
  }

  /** What surrounds a word is trimmed, and nothing of the word. */
  lemma TrimsAround(front: string, word: string, back: string, drop: char -> bool)
    requires All(front, drop) && All(back, drop) && HasEdges(word, drop)
    ensures TrimEnd(TrimStart(front + word + back, drop), drop) == word
  {
    if word == "" {
      assert front + word + back == (front + back) + "";
      TrimStartDrops(front + back, "", drop);
    } else {
      assert front + word + back == front + (word + back);
      TrimStartDrops(front, word + back, drop);
      TrimEndDrops(word, back, drop);
    }
  }

  /** A value parses to itself, quoted or not, whatever the white space around it. White space inside quotes belongs to
      the value. */
  lemma ParsesValue(value: string, quotes: (string, string), pad: (string, string))
    requires HasEdges(value, IsQuote) && All(quotes.0, IsQuote) && All(quotes.1, IsQuote)
    requires HasEdges(value, IsWhitespace) || (quotes.0 != "" && quotes.1 != "")
    requires All(pad.0, IsWhitespace) && All(pad.1, IsWhitespace)
    ensures TrimQuotes(Trim(pad.0 + (quotes.0 + value + quotes.1) + pad.1)) == value
  {
    var quoted := quotes.0 + value + quotes.1;
    assert HasEdges(quoted, IsWhitespace) by { QuotedEdges(value, quotes); }
    TrimsAround(pad.0, quoted, pad.1, IsWhitespace);
    TrimsAround(quotes.0, value, quotes.1, IsQuote);
  }

  lemma QuotedEdges(value: string, quotes: (string, string))
    requires All(quotes.0, IsQuote) && All(quotes.1, IsQuote)
    requires HasEdges(value, IsWhitespace) || (quotes.0 != "" && quotes.1 != "")
    ensures HasEdges(quotes.0 + value + quotes.1, IsWhitespace)
  {
    assert !IsWhitespace('"');
    hide IsWhitespace;
  }

  lemma PaddedLacksEquals(front: string, name: string, back: string)
    requires All(front, IsWhitespace) && All(back, IsWhitespace) && IsToken(name)
    ensures Lacks(front + name + back, '=')
  {}

  /** White space around a parameter's name and value and quotes around its value make no difference. */
  lemma SpellingsAgree(p: Param, around: (string, string), quotes: (string, string), pad: (string, string))
    requires IsPlainParam(p) && p.value.Some? && All(around.0, IsWhitespace) && All(around.1, IsWhitespace)
    requires All(quotes.0, IsQuote) && All(quotes.1, IsQuote) && All(pad.0, IsWhitespace) && All(pad.1, IsWhitespace)
    ensures ParseParam(
      around.0 + p.name + around.1 + ['='] + (pad.0 + (quotes.0 + p.value.value + quotes.1) + pad.1)) == p
  {
    var key, value := around.0 + p.name + around.1, pad.0 + (quotes.0 + p.value.value + quotes.1) + pad.1;
    PaddedLacksEquals(around.0, p.name, around.1);
    SplitAt(key, '=', value);
    assert Lacks(value, '=') by { QuotedLacksEquals(p.value.value, quotes, pad); }
    SplitNone(value, '=');
    TrimsAround(around.0, p.name, around.1, IsWhitespace);
    ParsesValue(p.value.value, quotes, pad);
  }

  lemma QuotedLacksEquals(value: string, quotes: (string, string), pad: (string, string))
    requires IsToken(value) && All(quotes.0, IsQuote) && All(quotes.1, IsQuote)
    requires All(pad.0, IsWhitespace) && All(pad.1, IsWhitespace)
    ensures Lacks(pad.0 + (quotes.0 + value + quotes.1) + pad.1, '=')
  {}

  /** A second equals sign and what follows it are ignored. */
  lemma IgnoresSecondEquals(key: string, value: string, more: string)
    requires Lacks(key, '=') && Lacks(value, '=')
    ensures ParseParam(key + ['='] + (value + ['='] + more)) == ParseParam(key + ['='] + value)
    ensures ParseParam(key + ['='] + value) == Param(Trim(key), Some(TrimQuotes(Trim(value))))
  {
    hide Trim, TrimQuotes;
    SplitAt(key, '=', value + ['='] + more);
    SplitAt(value, '=', more);
    SplitAt(key, '=', value);
    SplitNone(value, '=');
    var rest := Split(more, '=');
    assert ([key] + ([value] + rest))[1] == value;
  }

  /** Names agree if they have the same characters up to the case of the letters A to Z, and only then. */
  lemma IgnoresCaseOnly(s: string, t: string)
    ensures EqIgnoreAsciiCase(s, t) <==>
      && |s| == |t|
      && forall i | 0 <= i < |s| :: s[i] == t[i] || IsCapitalOf(s[i], t[i]) || IsCapitalOf(t[i], s[i])
  {
    if |s| == |t| {
      forall i | 0 <= i < |s|
        ensures AsciiLower(s[i]) == AsciiLower(t[i])
          <==> s[i] == t[i] || IsCapitalOf(s[i], t[i]) || IsCapitalOf(t[i], s[i])
      {
        SameLower(s[i], t[i]);
      }
    }
  }

  predicate IsCapitalOf(c: char, d: char) { 'A' <= c <= 'Z' && 'a' <= d <= 'z' && c - 'A' == d - 'a' }

  lemma SameLower(c: char, d: char)
    ensures AsciiLower(c) == AsciiLower(d) <==> c == d || IsCapitalOf(c, d) || IsCapitalOf(d, c)
  {
    var a, b := c as int, d as int;
    assert AsciiLower(c) as int == if 65 <= a <= 90 then a + 32 else a;
    assert AsciiLower(d) as int == if 65 <= b <= 90 then b + 32 else b;
  }

  /** The ASCII characters that are trimmed. */
  lemma AsciiWhitespace(c: char)
    requires c < '\U{80}'
    ensures IsWhitespace(c) <==> c as int in {9, 10, 11, 12, 13, 32}
  {}

  /** A printed line, letter by letter. */
  lemma PrintedLine()
    ensures Print([Offer("a", [Param("x", Some("1")), Param("y", None)]), Offer("b", [])]) == "a; x=1; y, b"
  {
    var x, y := Param("x", Some("1")), Param("y", None);
    var a, b := Offer("a", [x, y]), Offer("b", []);
    assert [a, b][1..] == [b] && [x, y][1..] == [y] && [y][1..] == [];
    assert PrintParam(x) == "; x=1" && PrintParam(y) == "; y";
    assert PrintParams([y]) == "; y" && PrintParams([x, y]) == "; x=1; y";
  }
}

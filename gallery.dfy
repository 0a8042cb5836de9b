/** The page: the card container and the one bubble layer it may hold.
    `renderizarCards` (script.js:39-112), `iniciarBusca` (script.js:19-37)
    and `atualizarCard` (script.js:114-223) change it in place. */
module Gallery {
  import opened Values
  import opened Portraits
  import opened Cards
  import CardId
  import Search

  /** At most one card holds a bubble layer. */
  ghost predicate AtMostOneLayer(cards: seq<Card>) {
    forall i, j :: 0 <= i < |cards| && 0 <= j < |cards| && cards[i].bubbles.Some? && cards[j].bubbles.Some? ==> i == j
  }

  /** The layer is on the card `owner` names and on no other, and every card
      keeps the shape rendering gave it. */
  ghost predicate Consistent(cards: seq<Card>, owner: Option<nat>) {
    && (owner.Some? ==> owner.value < |cards|)
    && (forall i :: 0 <= i < |cards| ==> (cards[i].bubbles.Some? <==> owner == Some(i)))
    && (forall i :: 0 <= i < |cards| ==> Shaped(cards[i]))
  }

  /** The cards once the layer is removed, wherever it was. */
  ghost function WithoutLayer(cards: seq<Card>): seq<Card> {
    seq(|cards|, i requires 0 <= i < |cards| => cards[i].(bubbles := None))
  }

  lemma ConsistentOneLayer(cards: seq<Card>, owner: Option<nat>)
    requires Consistent(cards, owner)
    ensures AtMostOneLayer(cards)
  {
  }

  /** Removing the layer from the card that holds it leaves no layer on the
      page and touches no other card. */
  lemma RemoveLayer(cards: seq<Card>, owner: Option<nat>)
    requires Consistent(cards, owner)
    ensures owner.Some? ==> cards[owner.value := cards[owner.value].(bubbles := None)] == WithoutLayer(cards)
    ensures owner.None? ==> cards == WithoutLayer(cards)
    ensures Consistent(WithoutLayer(cards), None)
    ensures forall i :: 0 <= i < |cards| && owner != Some(i) ==> WithoutLayer(cards)[i] == cards[i]
  {
    forall i | 0 <= i < |cards| && owner != Some(i) ensures WithoutLayer(cards)[i] == cards[i] {
      assert cards[i].bubbles.None?;
    }
  }

  /** Putting a card of the right shape in place of another keeps the page
      consistent, the layer going with it when it has one. */
  lemma PutCard(cards: seq<Card>, k: nat, card: Card)
    requires Consistent(cards, None) && k < |cards| && Shaped(card)
    ensures Consistent(cards[k := card], if card.bubbles.Some? then Some(k) else None)
  {
  }

  /** `cards` is what rendering `records` leaves in the container: one card
      per record, in order, up to the first record without a name, where
      script.js:44 throws; `ok` tells whether every record was rendered. */
  ghost predicate RenderedFrom(cards: seq<Card>, records: seq<Entry>, ok: bool) {
    && |cards| <= |records|
    && (forall i :: 0 <= i < |cards| ==> records[i].name.Some? && cards[i] == CardFor(records[i]))
    && (ok <==> |cards| == |records|)
    && (!ok ==> records[|cards|].name.None?)
  }

  /** Builds the card of one record, its selectors one by one (script.js:42-108). */
  method BuildCard(e: Entry) returns (c: Card)
    requires e.name.Some?
    ensures c == CardFor(e)
  {
    var selectors: seq<Selector> := [];
    if e.variations.Some? && |e.variations.value| > 0 {
      var vs := e.variations.value;
      selectors := [BackToDefault];
      var j := 0;
      while j < |vs|
        invariant 0 <= j <= |vs|
        invariant |selectors| == j + 1 && selectors[0] == BackToDefault
        invariant forall m :: 0 <= m < j ==> selectors[m + 1] == Variant(vs[m])
      {
        selectors := selectors + [Variant(vs[j])];
        j := j + 1;
      }
      assert selectors == SelectorsFor(e);
    }
    c := Card(
      id := CardId.Id(e.name.value),
      record := e,
      classes := {BaseClass},
      colours := if ThemeOn(e.theme) then Some(ThemeColours(e.theme.value)) else None,
      title := e.name.value,
      year := OrEmpty(e.creationDate),
      description := OrEmpty(e.description),
      consoles := OrEmpty(e.consoles),
      infoHref := e.link,
      hlb := if Truthy(e.hlb) then Some(HlbLink(e.hlb.value, true)) else None,
      portrait := Layout(e),
      selectors := selectors,
      bubbles := None);
  }

  /** The loop of script.js:164-180: fifteen bubbles, the i-th coloured by
      `palette[draws[i]]`. With an empty palette the first pick is
      `undefined` and the loop throws; the result is then `None`. */
  method DrawBubbles(palette: seq<BubbleColour>, draws: seq<nat>) returns (layer: Option<seq<BubbleColour>>)
    requires DrawsFit(draws, |palette|)
    ensures layer.Some? <==> |palette| > 0
    ensures layer.Some? ==> layer.value == Bubbles(palette, draws)
  {
    var bubbles: seq<BubbleColour> := [];
    var i := 0;
    while i < BubbleCount
      invariant 0 <= i <= BubbleCount && |bubbles| == i
      invariant i > 0 ==> |palette| > 0
      invariant forall j :: 0 <= j < i ==> draws[j] < |palette| && bubbles[j] == palette[draws[j]]
    {
      var pick := draws[i];
      if pick >= |palette| {
        return None;
      }
      bubbles := bubbles + [palette[pick]];
      i := i + 1;
    }
    return Some(bubbles);
  }

  class Page {
    /** The children of `.persona-container`, in order. */
    var cards: seq<Card>
    /** The card that holds the element with id `pq-bubbles`, if there is one. */
    var layerOwner: Option<nat>

    /** The layer is where `layerOwner` says and nowhere else, and every card
        keeps the shape rendering gave it. */
    ghost predicate Valid()
      reads this
    {
      Consistent(cards, layerOwner)
    }

    constructor ()
      ensures Valid() && cards == [] && layerOwner == None
    {
      cards := [];
      layerOwner := None;
    }

    /** `renderizarCards`: clear the container, then append one card per
        record in order. Clearing also drops the bubble layer, which lives
        inside a card. */
    method Render(records: seq<Entry>) returns (ok: bool)
      modifies this
      ensures Valid()
      ensures AtMostOneLayer(cards) && layerOwner == None
      ensures RenderedFrom(cards, records, ok)
    {
      cards := [];
      layerOwner := None;
      var i := 0;
      while i < |records|
        invariant 0 <= i <= |records| && |cards| == i && layerOwner == None
        invariant forall j :: 0 <= j < i ==> records[j].name.Some? && cards[j] == CardFor(records[j])
        invariant forall j :: 0 <= j < i ==> Shaped(cards[j]) && cards[j].bubbles.None?
      {
        if records[i].name.None? {
          return false;
        }
        var card := BuildCard(records[i]);
        RenderedCard(records[i]);
        cards := cards + [card];
        i := i + 1;
      }
      ok := true;
    }

    /** `iniciarBusca`: filter the dataset by the text of the search box and
        render the result; when the filter throws, nothing is rendered. */
    method StartSearch(input: string, data: seq<Entry>) returns (ok: bool)
      requires Valid()
      modifies this
      ensures Valid()
      ensures AtMostOneLayer(cards)
      ensures Search.Results(input, data) == TypeError ==>
        !ok && cards == old(cards) && layerOwner == old(layerOwner)
      ensures Search.Results(input, data).Ok? ==>
        layerOwner == None && RenderedFrom(cards, Search.Results(input, data).value, ok)
    {
      match Search.Results(input, data)
      case TypeError =>
        ok := false;
      case Ok(found) =>
        ok := Render(found);
    }

    /** The first two steps of an update (script.js:125-131): the marker
        classes leave card `k`, and the layer leaves whichever card held it. */
    method ClearEffects(k: nat)
      requires Valid() && k < |cards|
      modifies this
      ensures Consistent(cards, None) && layerOwner == None
      ensures |cards| == |old(cards)|
      ensures cards[k] == Stripped(old(cards)[k])
      ensures forall i :: 0 <= i < |cards| && i != k ==> cards[i] == old(cards)[i].(bubbles := None)
      ensures forall i :: 0 <= i < |cards| && i != k && old(layerOwner) != Some(i) ==> cards[i] == old(cards)[i]
    {
      cards := cards[k := cards[k].(classes := cards[k].classes - ThemeMarkers)];
      RemoveLayer(cards, layerOwner);
      if layerOwner.Some? {
        var o := layerOwner.value;
        cards := cards[o := cards[o].(bubbles := None)];
        layerOwner := None;
      }
    }

    /** `atualizarCard(cards[k], e)`. `draws` stands for the fifteen palette
        indices the bubbles draw at random. When the theme's
        palette is empty the pick is `undefined` and the update stops with
        `ok == false` after the first three steps. */
    method Update(k: nat, e: Entry, draws: seq<nat>) returns (ok: bool)
      requires Valid() && k < |cards| && DrawsFor(e.theme, draws)
      modifies this
      ensures Valid()
      ensures AtMostOneLayer(cards)
      ensures ok <==> PaletteReady(e.theme)
      ensures |cards| == |old(cards)|
      ensures ok ==> cards[k] == Refreshed(old(cards)[k], e, draws)
      ensures !ok ==> cards[k] == Interrupted(old(cards)[k], e)
      ensures layerOwner == if ok && ThemeOn(e.theme) then Some(k) else None
      // only the clicked card changes, apart from losing the layer elsewhere
      ensures forall i :: 0 <= i < |cards| && i != k ==> cards[i] == old(cards)[i].(bubbles := None)
      ensures forall i :: 0 <= i < |cards| && i != k && old(layerOwner) != Some(i) ==> cards[i] == old(cards)[i]
      // RefreshedShows spells out what the card shows after a complete update
    {
      ClearEffects(k);
      var card := cards[k];
      UpdateKeepsShape(old(cards)[k], e, draws);
      // script.js:134-137
      if ThemeOn(e.theme) {
        card := card.(colours := Some(ThemeColours(e.theme.value)));
      }
      // script.js:140-186
      if ThemeOn(e.theme) {
        var theme := e.theme.value;
        var layer := DrawBubbles(Palette(theme), draws);
        if layer.None? {
          PutCard(cards, k, card);
          cards := cards[k := card];
          return false;
        }
        card := card.(bubbles := Some(layer.value), classes := card.classes + Marker(theme));
        layerOwner := Some(k);
      }
      // script.js:189-222
      card := card.(title := OrEmpty(e.name),
                    portrait := Layout(e),
                    year := OrEmpty(e.creationDate),
                    description := OrEmpty(e.description),
                    consoles := OrEmpty(e.consoles),
                    infoHref := Some(if Truthy(e.link) then e.link.value else "#"),
                    hlb := Relinked(card.hlb, e.hlb));
      assert card == Refreshed(old(cards)[k], e, draws);
      PutCard(cards, k, card);
      cards := cards[k := card];
      ok := true;
    }

    /** A click on selector `s` of card `k`: the reset bubble applies the
        card's own record (script.js:88-91), any other bubble its variation
        (script.js:100-103). */
    method Click(k: nat, s: nat, draws: seq<nat>) returns (ok: bool)
      requires Valid() && k < |cards| && s < |cards[k].selectors|
      requires DrawsFor(Target(cards[k], s).theme, draws)
      modifies this
      ensures Valid()
      ensures AtMostOneLayer(cards)
      ensures |cards| == |old(cards)|
      ensures ok <==> PaletteReady(Target(old(cards)[k], s).theme)
      ensures ok ==> cards[k] == Refreshed(old(cards)[k], Target(old(cards)[k], s), draws)
      ensures !ok ==> cards[k] == Interrupted(old(cards)[k], Target(old(cards)[k], s))
      ensures forall i :: 0 <= i < |cards| && i != k ==> cards[i] == old(cards)[i].(bubbles := None)
      // the first selector is the reset bubble; it restores the record's name
      ensures s == 0 ==> old(cards)[k].selectors[0] == BackToDefault
      ensures ok && s == 0 ==> cards[k].title == old(cards)[k].record.name.value
    {
      ok := Update(k, Target(cards[k], s), draws);
    }
  }
}

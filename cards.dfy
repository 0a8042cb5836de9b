/** A rendered card as data: what `renderizarCards` builds for one record
    (script.js:42-108) and what `atualizarCard` makes of it (script.js:114-223).
    The functions here are the specifications the page's methods are proved
    against. */
module Cards {
  import opened Values
  import opened Portraits
  import CardId

  /** Bubbles in one decorative layer (script.js:164). */
  const BubbleCount: nat := 15
  /** The class every card carries (script.js:43). */
  const BaseClass: string := "p5-info-card"
  /** The marker classes an update removes first (script.js:125). */
  const ThemeMarkers: set<string> := {"pq-theme-active", "pq2-theme-active"}

  /** The two CSS custom properties a theme sets (`--card-bg-color`,
      `--card-text-color`); `None` stands for the value `undefined`. */
  datatype Colours = Colours(background: Option<string>, text: Option<string>)

  /** The "Quanto tempo para zerar?" link and whether it is displayed. */
  datatype HlbLink = HlbLink(href: string, visible: bool)

  /** A bubble under the card: the reset bubble, or one that applies a variation. */
  datatype Selector = BackToDefault | Variant(variation: Entry)

  /** How one decorative bubble is coloured: by a class name, or inline. */
  datatype BubbleColour = ColourClass(name: string) | Inline(colour: Option<string>)

  datatype Card = Card(
    id: string,
    record: Entry,                        // the record the reset bubble restores
    classes: set<string>,
    colours: Option<Colours>,             // None until some theme has set them
    title: string,
    year: string,
    description: string,
    consoles: string,
    infoHref: Option<string>,             // None: the markup's `undefined`
    hlb: Option<HlbLink>,                 // None: the card has no such link
    portrait: Portrait,
    selectors: seq<Selector>,
    bubbles: Option<seq<BubbleColour>>)   // the page-wide `pq-bubbles` layer, if this card holds it

  // ---------------------------------------------------------------------
  // Themes

  /** `theme.bg || theme.primary` and `theme.secondary` (script.js:47-48, 135-136);
      a tag has neither. */
  function ThemeColours(t: Theme): Colours {
    match t
    case Named(_) => Colours(None, None)
    case Custom(bg, primary, secondary, _) => Colours(if Truthy(bg) then bg else primary, secondary)
  }

  /** The bubble palette of a theme (script.js:146-162). */
  function Palette(t: Theme): seq<BubbleColour> {
    if t == Named("pq") then [ColourClass("bubble-blue"), ColourClass("bubble-yellow")]
    else if t == Named("pq2") then
      [ColourClass("bubble-red"), ColourClass("bubble-yellow"), ColourClass("bubble-blue"), ColourClass("bubble-pink")]
    else if t.Custom? && Truthy(t.primary) then [Inline(t.primary), Inline(t.tertiary)]
    else []
  }

  /** The marker class a themed update adds (script.js:183-185). */
  function Marker(t: Theme): set<string> {
    if t.Named? then {t.tag + "-theme-active"} else {}
  }

  /** An update with theme `t` gets past the bubble loop: there is no theme,
      or its palette has a colour to pick. */
  predicate PaletteReady(t: Option<Theme>) {
    !ThemeOn(t) || |Palette(t.value)| > 0
  }

  /** The injected random palette indices, one per bubble:
      below `n`, and 0 when `n` is 0. */
  predicate DrawsFit(draws: seq<nat>, n: nat) {
    |draws| == BubbleCount && forall j :: 0 <= j < |draws| ==> draws[j] == 0 || draws[j] < n
  }

  /** The draws suit the theme of the entry an update applies. */
  predicate DrawsFor(t: Option<Theme>, draws: seq<nat>) {
    ThemeOn(t) ==> DrawsFit(draws, |Palette(t.value)|)
  }

  /** The layer of 15 bubbles, each coloured by the palette entry its draw picks. */
  function Bubbles(palette: seq<BubbleColour>, draws: seq<nat>): seq<BubbleColour>
    requires |palette| > 0 && DrawsFit(draws, |palette|)
  {
    seq(BubbleCount, i requires 0 <= i < BubbleCount => palette[draws[i]])
  }

  // ---------------------------------------------------------------------
  // Rendering (script.js:42-108)

  /** The reset bubble first, then one per variation; none without variations
      (script.js:78-107). */
  function SelectorsFor(e: Entry): seq<Selector> {
    if e.variations.Some? && |e.variations.value| > 0 then
      [BackToDefault] + seq(|e.variations.value|, j requires 0 <= j < |e.variations.value| => Variant(e.variations.value[j]))
    else []
  }

  /** The card rendered for a named record. */
  function CardFor(e: Entry): Card
    requires e.name.Some?
  {
    Card(
      id := CardId.Id(e.name.value),
      record := e,
      classes := {BaseClass},
      colours := if ThemeOn(e.theme) then Some(ThemeColours(e.theme.value)) else None,
      title := e.name.value,
      year := OrEmpty(e.creationDate),
      description := OrEmpty(e.description),
      consoles := OrEmpty(e.consoles),
      infoHref := e.link,
      hlb := if Truthy(e.hlb) then Some(HlbLink(e.hlb.value, true)) else None,
      portrait := Layout(e),
      selectors := SelectorsFor(e),
      bubbles := None)
  }

  /** What rendering fixes for the life of a card and updates never change:
      its id comes from its record's name, its selectors from its record's
      variations, and its hlb link exists exactly when the record has one. */
  ghost predicate Shaped(c: Card) {
    && c.record.name.Some?
    && c.id == CardId.Id(c.record.name.value)
    && c.selectors == SelectorsFor(c.record)
    && (c.hlb.Some? <==> Truthy(c.record.hlb))
    && BaseClass in c.classes
  }

  // ---------------------------------------------------------------------
  // Updating (script.js:114-223), step by step

  /** Marker classes removed and the bubble layer gone (script.js:125-131). */
  function Stripped(c: Card): Card {
    c.(classes := c.classes - ThemeMarkers, bubbles := None)
  }

  /** The theme's colours applied; without a theme the old ones stay (script.js:134-137). */
  function Recoloured(c: Card, t: Option<Theme>): Card {
    if ThemeOn(t) then c.(colours := Some(ThemeColours(t.value))) else c
  }

  /** The card as left by an update whose palette is empty: the pick at
      script.js:166 is `undefined`, and reading its `style` at script.js:173
      throws before anything else changes. */
  function Interrupted(c: Card, e: Entry): Card {
    Recoloured(Stripped(c), e.theme)
  }

  /** The hlb link after an update (script.js:215-222): shown with the new
      address when the entry has one, hidden with its address kept otherwise. */
  function Relinked(h: Option<HlbLink>, v: Option<string>): Option<HlbLink> {
    match h
    case None => None
    case Some(link) => if Truthy(v) then Some(HlbLink(v.value, true)) else Some(link.(visible := false))
  }

  /** The card after a complete update with entry `e`. */
  function Refreshed(c: Card, e: Entry, draws: seq<nat>): Card
    requires PaletteReady(e.theme) && DrawsFor(e.theme, draws)
  {
    var c1 := Interrupted(c, e);
    var c2 :=
      if ThemeOn(e.theme) then
        c1.(bubbles := Some(Bubbles(Palette(e.theme.value), draws)),
            classes := c1.classes + Marker(e.theme.value))
      else c1;
    c2.(title := OrEmpty(e.name),
        portrait := Layout(e),
        year := OrEmpty(e.creationDate),
        description := OrEmpty(e.description),
        consoles := OrEmpty(e.consoles),
        infoHref := Some(if Truthy(e.link) then e.link.value else "#"),
        hlb := Relinked(c.hlb, e.hlb))
  }

  /** The entry a click on selector `s` applies: the card's own record for
      the reset bubble (script.js:90), the variation otherwise (script.js:102). */
  function Target(c: Card, s: nat): Entry
    requires s < |c.selectors|
  {
    match c.selectors[s]
    case BackToDefault => c.record
    case Variant(v) => v
  }

  // ---------------------------------------------------------------------
  // Properties

  /** A rendered card: its id, its fields, and its selectors (as many as the
      variations plus one, reset first, or none). */
  lemma RenderedCard(e: Entry)
    requires e.name.Some?
    ensures Shaped(CardFor(e))
    ensures CardFor(e).title == e.name.value && CardFor(e).bubbles.None?
    ensures CardFor(e).colours.Some? <==> ThemeOn(e.theme)
    ensures e.variations.Some? && |e.variations.value| > 0 ==>
      && |CardFor(e).selectors| == |e.variations.value| + 1
      && CardFor(e).selectors[0] == BackToDefault
      && forall j :: 0 <= j < |e.variations.value| ==> CardFor(e).selectors[j + 1] == Variant(e.variations.value[j])
    ensures !(e.variations.Some? && |e.variations.value| > 0) ==> CardFor(e).selectors == []
  {
  }

  /** What a card shows after a complete update: the entry's text, with ''
      for what it lacks and '#' for a missing link; the entry's layout; its
      theme's colours (the old ones when it has none); and, with a theme,
      fifteen bubbles coloured from its palette. */
  lemma RefreshedShows(c: Card, e: Entry, draws: seq<nat>)
    requires PaletteReady(e.theme) && DrawsFor(e.theme, draws)
    ensures Refreshed(c, e, draws).title == OrEmpty(e.name)
    ensures Refreshed(c, e, draws).year == OrEmpty(e.creationDate)
    ensures Refreshed(c, e, draws).description == OrEmpty(e.description)
    ensures Refreshed(c, e, draws).consoles == OrEmpty(e.consoles)
    ensures Refreshed(c, e, draws).infoHref == Some(if Truthy(e.link) then e.link.value else "#")
    ensures Refreshed(c, e, draws).portrait == Layout(e)
    ensures ThemeOn(e.theme) ==> Refreshed(c, e, draws).colours == Some(ThemeColours(e.theme.value))
    ensures !ThemeOn(e.theme) ==> Refreshed(c, e, draws).colours == c.colours
    ensures ThemeOn(e.theme) ==>
      && Refreshed(c, e, draws).bubbles.Some?
      && |Refreshed(c, e, draws).bubbles.value| == BubbleCount
      && forall b :: b in Refreshed(c, e, draws).bubbles.value ==> b in Palette(e.theme.value)
    ensures !ThemeOn(e.theme) ==> Refreshed(c, e, draws).bubbles.None?
    ensures c.hlb.Some? && Truthy(e.hlb) ==> Refreshed(c, e, draws).hlb == Some(HlbLink(e.hlb.value, true))
    ensures c.hlb.Some? && !Truthy(e.hlb) ==> Refreshed(c, e, draws).hlb == Some(c.hlb.value.(visible := false))
    ensures c.hlb.None? ==> Refreshed(c, e, draws).hlb.None?
  {
    if ThemeOn(e.theme) {
      BubblesFromPalette(Palette(e.theme.value), draws);
    }
  }

  /** A themed update gets past the bubble loop exactly for the tags "pq" and
      "pq2" and for colour objects with a primary colour; the palettes have
      two, four and two colours. */
  lemma PaletteCases(t: Theme)
    ensures |Palette(t)| > 0 <==> t == Named("pq") || t == Named("pq2") || (t.Custom? && Truthy(t.primary))
    ensures t == Named("pq") ==> |Palette(t)| == 2
    ensures t == Named("pq2") ==> |Palette(t)| == 4
    ensures t.Custom? && Truthy(t.primary) ==> Palette(t) == [Inline(t.primary), Inline(t.tertiary)]
  {
  }

  /** Every bubble of a layer takes its colour from the palette. */
  lemma BubblesFromPalette(palette: seq<BubbleColour>, draws: seq<nat>)
    requires |palette| > 0 && DrawsFit(draws, |palette|)
    ensures |Bubbles(palette, draws)| == BubbleCount
    ensures forall b :: b in Bubbles(palette, draws) ==> b in palette
  {
    forall b | b in Bubbles(palette, draws) ensures b in palette {
      var i :| 0 <= i < BubbleCount && Bubbles(palette, draws)[i] == b;
      assert palette[draws[i]] == b;
    }
  }

  /** After a complete update the only marker class is the one of a "pq" or
      "pq2" theme: any other tag never gets this far. */
  lemma MarkerAfterUpdate(c: Card, e: Entry, draws: seq<nat>)
    requires PaletteReady(e.theme) && DrawsFor(e.theme, draws)
    ensures Refreshed(c, e, draws).classes ==
      (c.classes - ThemeMarkers) +
      (if e.theme == Some(Named("pq")) then {"pq-theme-active"}
       else if e.theme == Some(Named("pq2")) then {"pq2-theme-active"}
       else {})
  {
    if ThemeOn(e.theme) {
      PaletteCases(e.theme.value);
      assert "pq" + "-theme-active" == "pq-theme-active";
      assert "pq2" + "-theme-active" == "pq2-theme-active";
    }
  }

  /** An update keeps what rendering fixed, whether it completes or not. */
  lemma UpdateKeepsShape(c: Card, e: Entry, draws: seq<nat>)
    requires Shaped(c)
    ensures Shaped(Interrupted(c, e))
    ensures PaletteReady(e.theme) && DrawsFor(e.theme, draws) ==> Shaped(Refreshed(c, e, draws))
    ensures Interrupted(c, e).id == c.id && Interrupted(c, e).record == c.record
      && Interrupted(c, e).selectors == c.selectors && Interrupted(c, e).hlb == c.hlb
    ensures PaletteReady(e.theme) && DrawsFor(e.theme, draws) ==>
      && Refreshed(c, e, draws).id == c.id
      && Refreshed(c, e, draws).record == c.record
      && Refreshed(c, e, draws).selectors == c.selectors
      && (Refreshed(c, e, draws).hlb.Some? <==> c.hlb.Some?)
  {
  }

  /** Applying the same entry twice is applying it once with the second
      draws: only the bubbles' colours are drawn again. */
  lemma UpdateIdempotent(c: Card, e: Entry, d1: seq<nat>, d2: seq<nat>)
    requires PaletteReady(e.theme) && DrawsFor(e.theme, d1) && DrawsFor(e.theme, d2)
    ensures Refreshed(Refreshed(c, e, d1), e, d2) == Refreshed(c, e, d2)
  {
    MarkerAfterUpdate(c, e, d1);
    MarkerAfterUpdate(Refreshed(c, e, d1), e, d2);
    MarkerAfterUpdate(c, e, d2);
  }

  /** The reset bubble restores the text, the images, the hlb link and, when
      the record has a theme, the colours that rendering gave the card; a
      record without a theme leaves the colours of the last variation. */
  lemma ResetRestores(c: Card, draws: seq<nat>)
    requires Shaped(c) && PaletteReady(c.record.theme) && DrawsFor(c.record.theme, draws)
    ensures Refreshed(c, c.record, draws).title == CardFor(c.record).title
    ensures Refreshed(c, c.record, draws).year == CardFor(c.record).year
    ensures Refreshed(c, c.record, draws).description == CardFor(c.record).description
    ensures Refreshed(c, c.record, draws).consoles == CardFor(c.record).consoles
    ensures Refreshed(c, c.record, draws).portrait == CardFor(c.record).portrait
    ensures Refreshed(c, c.record, draws).hlb == CardFor(c.record).hlb
    ensures Truthy(c.record.link) ==> Refreshed(c, c.record, draws).infoHref == CardFor(c.record).infoHref
    ensures ThemeOn(c.record.theme) ==> Refreshed(c, c.record, draws).colours == CardFor(c.record).colours
    ensures !ThemeOn(c.record.theme) ==> Refreshed(c, c.record, draws).colours == c.colours
  {
  }
}

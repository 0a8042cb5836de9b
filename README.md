# Persona gallery card logic, verified in Dafny

`script.js` drives a searchable gallery of game cards loaded from a JSON
dataset. Each record is a game. A record may carry "variations" (alternate
games of the same series), and clicking one of them swaps a card's content
in place. A "back to default" bubble swaps it back. This project models the
logic of that script as data:

- **Search** (`iniciarBusca`): which records a query keeps, and when the
  filter throws.
- **Card id** (script.js:44): the DOM id derived from a record's name.
- **Protagonist layout** (`gerarProtagonistasHTML`): the rule shared by
  rendering and updating.
- **Rendering** (`renderizarCards`): a `Page` whose container is a
  `seq<Card>`, filled in order.
- **Updating** (`atualizarCard`): the in-place swap of one card. It covers
  the theme colours, the marker classes, the single page-wide layer of 15
  decorative bubbles, the text fields and the "hlb" link.

Records and variations share one datatype, `Values.Entry`. Every JSON field
is optional in it, as it is for the script. Where the script throws a
`TypeError`, the model returns an error value (`Values.Result.TypeError`, or
`ok == false` from a method) instead of forbidding the input:

- the search throws when a variation scan reaches a variation without `nome`
  before any match (script.js:33);
- rendering stops at the first record without `nome` (script.js:44);
- an update stops when its truthy theme's bubble palette is empty (script.js:166-173).

`Math.random` becomes an injected sequence `draws` of palette indices.
Lower-casing is ASCII lower-casing.

Modules: `Values` (data), `Text` (lower-casing and `includes`), `Search`,
`CardId`, `Portraits`, `Cards` (the card datatype and the specification
functions `CardFor`, `Refreshed` and `Interrupted`) and `Gallery` (the
`Page` class and its methods).

Some behaviours of the script are easy to misread; the model follows the
script:

- A `protagonistas` array of length 0, 1 or 2 gives the left/right pair of
  script.js:56. Missing elements are `undefined`. A one-element array
  therefore does not give a single image, and an empty one does not give a
  placeholder. Those come only from the singular `protagonista` field or its
  absence.
- A non-empty tag theme other than `"pq"` and `"pq2"` has an empty palette,
  so the update throws at script.js:173 before it adds a marker class or changes
  any text. So does a colour object without a truthy `primary`. A complete
  update therefore never leaves a marker other than `pq-theme-active` or
  `pq2-theme-active`. The empty tag `""` is falsy: the bubble block is
  skipped and the update completes.
- A record without `nome` is tolerated by the search (`nome?.`) but stops
  rendering at script.js:44.
- Reset does not restore colours when the record has no theme: script.js:134
  only sets colours when a theme is present, so the last variation's colours
  stay (`Cards.ResetRestores`).

## Model

| member | source | states |
|---|---|---|
| `Text.LowerIdempotent` | script.js:20-21 | Lower-casing is idempotent, and a query lower-cases to the empty string exactly when it is empty. |
| `Text.IncludesIff` | script.js:27-33 | `includes` returns true exactly when the needle occurs as a contiguous substring at some index. |
| `Search.FieldHitIff` | script.js:27-30 | A present field matches exactly when its lower-cased text contains the term. |
| `Search.TagHitIff` | script.js:31 | The tag condition holds exactly when some tag, lower-cased, contains the term. |
| `Search.ScanNamed` | script.js:33 | When every variation has a name, the variation scan does not throw, and it reports whether some variation's name contains the term. |
| `Search.ScanThrows` | script.js:33 | The variation scan throws exactly when it reaches a nameless variation before any earlier variation matched. |
| `Search.KeepIsHit` | script.js:26-35 | With named variations, the filter callback is true exactly for records where a name, date, description, console text, tag or variation name contains the term. |
| `Search.FilterIsMatching` | script.js:26-35 | With named variations, the filter returns exactly the matching records in input order. |
| `Search.FilterThrows` | script.js:26-35 | The filter throws exactly when its callback throws on some record. |
| `Search.MatchingMembers` | script.js:26-35 | A record is in the result exactly when it is in the dataset and matches. |
| `Search.MatchingInOrder` | script.js:26 | The result is a subsequence of the dataset, so order is preserved. |
| `Search.SearchSpec` | script.js:20-35 | An empty query returns the dataset unchanged. Otherwise, with named variations, the search returns the matching records in order for the lower-cased query. |
| `Search.PersonaFoundByConsole` | script.js:26-35 | The record "Persona 5" with console "PS4" is found by the query "ps4". |
| `Search.PersonaNotFoundByOtherConsole` | script.js:26-35 | The same record is not found by "xbox". |
| `CardId.SlugAt` | script.js:44 | Each ASCII letter or digit of the name becomes its lower-case form, and every other character becomes exactly one `-`. The slug has the name's length. |
| `CardId.SlugAlphabet` | script.js:44 | The slug is as long as the name and uses only `[a-z0-9-]`. |
| `CardId.SlugIdempotent` | script.js:44 | Applying the slug step to a slug changes nothing. |
| `CardId.IdShape` | script.js:44 | The id is `card-` followed by the slug, so it is five characters longer than the name, and every character after the prefix is in `[a-z0-9-]`. |
| `CardId.PersonaFiveId` | script.js:44 | "Persona 5" gets the id `card-persona-5`. |
| `Portraits.MultiSlots` | script.js:53-54 | More than two protagonists give one image per protagonist, in order. The i-th image is tagged `protagonista-multi-(i+1)`, so the tags are 1..n and pairwise distinct. |
| `Portraits.LayoutCases` | script.js:52-59 | The layout rule: more than two array elements give the multi layout. Any other array gives the pair of elements 0 and 1. Otherwise a truthy `protagonista` gives a single image, and anything else gives the placeholder. |
| `Cards.RenderedCard` | script.js:42-108 | A rendered card has the id from its name, the name as title, colours exactly when the theme is truthy, and no bubble layer. A record with variations gets `variations.length + 1` selectors with reset first; any other record gets none. |
| `Cards.PaletteCases` | script.js:146-162 | A theme has a non-empty palette exactly for `"pq"` (2 classes), `"pq2"` (4 classes) and a colour object with a truthy `primary` (`[primary, tertiary]`). |
| `Cards.BubblesFromPalette` | script.js:164-180 | A layer has exactly 15 bubbles, and each takes its colour from the palette. |
| `Cards.RefreshedShows` | script.js:133-222 | A complete update shows the entry's name, year, description and consoles, with `''` for absent ones. The info link is `link` or `'#'`. The layout is the shared rule. The colours come from the theme (the old ones are kept without a theme). With a theme there are 15 palette bubbles; without one there is no layer. An existing hlb link is shown with the entry's `hlb` as address, or hidden with its address kept when the entry has none; a card without one gets none. |
| `Cards.MarkerAfterUpdate` | script.js:125-185 | After a complete update, the card's classes are its old classes minus both markers, plus `pq-theme-active` or `pq2-theme-active` for those two themes only. |
| `Cards.UpdateKeepsShape` | script.js:114-223 | Updates, complete or interrupted, never change the card's id, its record, its selectors or whether it has an hlb link (an interrupted one leaves the link as it was), and they keep the card `Shaped`. |
| `Cards.UpdateIdempotent` | script.js:88-91 | Applying the same entry twice gives the same card as applying it once with the second draws. Only the bubble colours are drawn again. |
| `Cards.ResetRestores` | script.js:88-91 | Reset restores the rendered title (the record's name), year, description, consoles, layout and hlb link. It restores the link when the record has one, and the colours when the record has a theme. A record without a theme keeps the previous colours. |
| `Gallery.ConsistentOneLayer` | script.js:128-131 | A consistent page holds at most one bubble layer. |
| `Gallery.RemoveLayer` | script.js:128-131 | Removing the layer from the card that holds it leaves no layer on the page and changes no other card. |
| `Gallery.BuildCard` | script.js:42-108 | Building one card, with its selectors appended in a loop, yields the rendered card of the record. |
| `Gallery.DrawBubbles` | script.js:164-180 | The bubble loop succeeds exactly when the palette is non-empty. It then yields the 15 bubbles the draws pick. |
| `Gallery.Page.Render` | script.js:39-112 | Rendering clears the container and the bubble layer. It appends one card per record, in order, and stops at the first record without a name; `ok` tells whether all records were rendered. |
| `Gallery.Page.StartSearch` | script.js:19-37 | When the filter throws, the page is unchanged. Otherwise the page shows the rendering of the search results. |
| `Gallery.Page.ClearEffects` | script.js:124-131 | Both markers leave the clicked card. The bubble layer leaves whichever card held it, and no other card changes. |
| `Gallery.Page.Update` | script.js:114-223 | The update completes exactly when the theme's palette is usable. The clicked card becomes the complete or the interrupted update of itself. The layer is on that card exactly after a complete themed update. Other cards only lose the layer, and the page keeps at most one layer. |
| `Gallery.Page.Click` | script.js:88-103 | A click applies the record (first selector, reset) or the chosen variation. After a complete reset the title is the record's name again. |

## Left out

- Loading `data.json` with `fetch` and logging a failure (script.js:9-17): network I/O. A successful load is `Page.Render` of the parsed records.
- Event wiring: the click and Enter handlers, and `stopPropagation` (script.js:88-89, 100-101, 225-230). The handlers are modelled as direct calls to `StartSearch` and `Click`.
- The scroll-to-top control (script.js:235-253): presentational only.
- Random animation delays and random bubble positions (script.js:87, 104, 176-178): decorative floating-point values. Only the injected palette index of each bubble is kept.
- Markup, `innerHTML` parsing, HTML escaping, the selectors' tooltip and icon, and CSS semantics. Absent values that the markup would print as `undefined` are kept as `None`: the info link at render time, and a colour property set from a missing theme field.
- `CardId.Id`, `CardId.Slug`: characters are Unicode scalar values, not UTF-16 code units. A character outside the Basic Multilingual Plane becomes one `-` where the script writes two, and lone surrogates are not represented. The same unit of a character is used by lower-casing and by `includes` in the search.
- Full Unicode `toLowerCase`: lower-casing is ASCII-only. Characters such as U+0130 or the Kelvin sign would lower-case differently, and U+0130 would also change the string's length.
- JSON values of unexpected types: every text field is a string, `tags` and `protagonistas` are arrays of strings, and `variations` is an array when present.
- Clicks on cards that a later render removed from the container: the model only addresses cards that are on the page.

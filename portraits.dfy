/** The protagonist block of a card (`gerarProtagonistasHTML`,
    script.js:52-59, and the same rule again in `atualizarCard`,
    script.js:195-207), as the images it shows rather than as markup. */
module Portraits {
  import opened Values

  /** An `<img class="protagonista-multi protagonista-multi-<slot>">`. */
  datatype Image = Image(src: string, slot: nat)

  datatype Portrait =
    | Multi(images: seq<Image>)                          // more than two protagonists, side by side
    | Pair(left: Option<string>, right: Option<string>)  // elements 0 and 1, `undefined` past the end
    | Single(src: string)                                // the singular `protagonista`
    | Placeholder                                        // an empty block that keeps the layout

  /** The layout rule. Any `protagonistas` array that is not longer than two,
      including an empty one or one of length one, gives the left/right pair. */
  function Layout(e: Entry): Portrait {
    match e.protagonists
    case Some(ps) =>
      if |ps| > 2 then Multi(seq(|ps|, i requires 0 <= i < |ps| => Image(ps[i], i + 1)))
      else Pair(At(ps, 0), At(ps, 1))
    case None =>
      if Truthy(e.protagonist) then Single(e.protagonist.value) else Placeholder
  }

  /** More than two protagonists: one image per protagonist, in order,
      the i-th tagged with slot i + 1, so the slots are 1..n and pairwise
      distinct. */
  lemma MultiSlots(e: Entry)
    requires e.protagonists.Some? && |e.protagonists.value| > 2
    ensures Layout(e).Multi?
    ensures |Layout(e).images| == |e.protagonists.value|
    ensures forall i :: 0 <= i < |Layout(e).images| ==>
      Layout(e).images[i].src == e.protagonists.value[i] &&
      1 <= Layout(e).images[i].slot <= |e.protagonists.value| &&
      Layout(e).images[i].slot == i + 1
    ensures forall i, j :: 0 <= i < j < |Layout(e).images| ==> Layout(e).images[i].slot != Layout(e).images[j].slot
  {
  }

  /** The decision table, case by case. */
  lemma LayoutCases(e: Entry)
    ensures Layout(e).Multi? <==> e.protagonists.Some? && |e.protagonists.value| > 2
    ensures Layout(e).Pair? <==> e.protagonists.Some? && |e.protagonists.value| <= 2
    ensures Layout(e).Pair? ==> Layout(e).left == At(e.protagonists.value, 0) && Layout(e).right == At(e.protagonists.value, 1)
    ensures Layout(e).Single? <==> e.protagonists.None? && Truthy(e.protagonist)
    ensures Layout(e).Single? ==> Some(Layout(e).src) == e.protagonist
    ensures Layout(e).Placeholder? <==> e.protagonists.None? && !Truthy(e.protagonist)
  {
  }
}

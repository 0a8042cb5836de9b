/** The gallery's data as the script sees it after `JSON.parse`: records and
    their variations are plain values, and every field may be absent. */
module Values {

  datatype Option<+T> = None | Some(value: T)

  /** A computation of the script either produces a value or stops with the
      `TypeError` JavaScript raises when a property of `undefined` is read. */
  datatype Result<+T> = Ok(value: T) | TypeError

  /** The `theme` field: a bare tag such as "pq" or "pq2", or an object of colours. */
  datatype Theme =
    | Named(tag: string)
    | Custom(bg: Option<string>, primary: Option<string>, secondary: Option<string>, tertiary: Option<string>)

  /** One element of the dataset, or one of its `variations`; both are read
      through the same fields (`nome`, `data_criacao`, `descricao`, `Consoles`,
      `tags`, `link`, `hlb`, `theme`, `protagonistas`, `protagonista`,
      `bubble_icon`, `variations`). */
  datatype Entry = Entry(
    name: Option<string>,
    creationDate: Option<string>,
    description: Option<string>,
    consoles: Option<string>,
    tags: Option<seq<string>>,
    link: Option<string>,
    hlb: Option<string>,
    theme: Option<Theme>,
    protagonists: Option<seq<string>>,
    protagonist: Option<string>,
    bubbleIcon: Option<string>,
    variations: Option<seq<Entry>>)

  /** JavaScript truthiness of an optional string: absent and "" are falsy. */
  predicate Truthy(s: Option<string>) {
    s.Some? && s.value != ""
  }

  /** `s || ''` */
  function OrEmpty(s: Option<string>): string {
    if Truthy(s) then s.value else ""
  }

  /** JavaScript truthiness of the `theme` field: an object is always truthy,
      a tag only when it is not empty. */
  predicate ThemeOn(t: Option<Theme>) {
    t.Some? && (t.value.Named? ==> t.value.tag != "")
  }

  /** `xs[i]` on a JavaScript array: `undefined` past the end. */
  function At(xs: seq<string>, i: nat): Option<string> {
    if i < |xs| then Some(xs[i]) else None
  }
}

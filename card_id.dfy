/** The DOM id a rendered card receives from its record's name
    (script.js:44): `card-` followed by the lower-cased name with every
    character outside `[a-z0-9]` replaced by one `-`. */
module CardId {
  import opened Text

  const Prefix: string := "card-"

  /** `[a-z0-9]` */
  predicate Plain(c: char) {
    'a' <= c <= 'z' || '0' <= c <= '9'
  }

  /** An ASCII letter of either case, or a digit. */
  predicate AsciiAlnum(c: char) {
    'a' <= c <= 'z' || 'A' <= c <= 'Z' || '0' <= c <= '9'
  }

  /** Every character outside `[a-z0-9]` replaced by one `-`, one character at a time. */
  function ReplaceOthers(s: string): string {
    if s == [] then []
    else [if Plain(s[0]) then s[0] else '-'] + ReplaceOthers(s[1..])
  }

  /** The part of the id after the prefix. */
  function Slug(name: string): string {
    ReplaceOthers(Lower(name))
  }

  /** The prefix `card-` followed by the slug of the name. */
  function Id(name: string): string {
    Prefix + Slug(name)
  }

  lemma {:induction false} ReplaceOthersAt(s: string)
    ensures |ReplaceOthers(s)| == |s|
    ensures forall i :: 0 <= i < |s| ==>
      ReplaceOthers(s)[i] == if Plain(s[i]) then s[i] else '-'
  {
    if s != [] {
      ReplaceOthersAt(s[1..]);
      assert forall i :: 1 <= i < |s| ==> ReplaceOthers(s)[i] == ReplaceOthers(s[1..])[i - 1];
    }
  }

  /** Character by character: an ASCII letter or digit of the name becomes
      its lower-case form, every other character becomes one `-`. */
  lemma SlugAt(name: string)
    ensures |Slug(name)| == |name|
    ensures forall i :: 0 <= i < |name| ==>
      Slug(name)[i] == if AsciiAlnum(name[i]) then LowerChar(name[i]) else '-'
  {
    ReplaceOthersAt(Lower(name));
  }

  /** The slug has the name's length and uses only `[a-z0-9-]`. */
  lemma SlugAlphabet(name: string)
    ensures |Slug(name)| == |name|
    ensures forall c :: c in Slug(name) ==> Plain(c) || c == '-'
  {
    SlugAt(name);
    forall c | c in Slug(name) ensures Plain(c) || c == '-' {
      var i :| 0 <= i < |Slug(name)| && Slug(name)[i] == c;
    }
  }

  /** Deriving a slug from a slug changes nothing. */
  lemma SlugIdempotent(name: string)
    ensures Slug(Slug(name)) == Slug(name)
  {
    var s := Slug(name);
    SlugAt(name);
    SlugAt(s);
  }

  /** The id is the prefix followed by the slug: the part after the prefix
      is as long as the name and contains only `[a-z0-9-]`. */
  lemma IdShape(name: string)
    ensures |Id(name)| == |Prefix| + |name|
    ensures Id(name)[..|Prefix|] == Prefix
    ensures forall i :: |Prefix| <= i < |Id(name)| ==> Plain(Id(name)[i]) || Id(name)[i] == '-'
  {
    SlugAt(name);
    assert forall i :: |Prefix| <= i < |Id(name)| ==> Id(name)[i] == Slug(name)[i - |Prefix|];
  }

  /** A worked example: "Persona 5" gets the id `card-persona-5`. */
  lemma PersonaFiveId()
    ensures Id("Persona 5") == "card-persona-5"
  {
    SlugAt("Persona 5");
  }
}

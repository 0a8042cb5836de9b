/** The search box (`iniciarBusca`, script.js:19-37): which records a query
    keeps, and when the filter itself throws. */
module Search {
  import opened Values
  import opened Text

  /** The lower-cased field contains the term; an absent field never matches. */
  function FieldHit(field: Option<string>, term: string): bool {
    field.Some? && Includes(Lower(field.value), term)
  }

  /** Some tag, lower-cased, contains the term. */
  function AnyTagHit(tags: seq<string>, term: string): bool {
    exists t :: t in tags && Includes(Lower(t), term)
  }

  /** The condition on the record's own fields (script.js:27-31). */
  function PrincipalHit(e: Entry, term: string): bool {
    || FieldHit(e.name, term)
    || FieldHit(e.creationDate, term)
    || FieldHit(e.description, term)
    || FieldHit(e.consoles, term)
    || (e.tags.Some? && AnyTagHit(e.tags.value, term))
  }

  /** Some variation's lower-cased name contains the term (script.js:33):
      the scan goes left to right, stops at the first match, and throws when
      it reaches a variation without a name, since `v.nome` is not guarded. */
  function ScanVariations(vs: seq<Entry>, term: string): Result<bool> {
    if vs == [] then Ok(false)
    else if vs[0].name.None? then TypeError
    else if Includes(Lower(vs[0].name.value), term) then Ok(true)
    else ScanVariations(vs[1..], term)
  }

  /** The callback given to `dados.filter` (script.js:26-35). The variation
      scan runs even when a main field already matched. */
  function Keep(e: Entry, term: string): Result<bool> {
    var principal := PrincipalHit(e, term);
    match e.variations
    case None => Ok(principal)
    case Some(vs) =>
      match ScanVariations(vs, term)
      case TypeError => TypeError
      case Ok(v) => Ok(principal || v)
  }

  /** `dados.filter(...)`: the first callback that throws aborts the filter. */
  function FilterData(data: seq<Entry>, term: string): Result<seq<Entry>> {
    if data == [] then Ok([])
    else
      match Keep(data[0], term)
      case TypeError => TypeError
      case Ok(k) =>
        match FilterData(data[1..], term)
        case TypeError => TypeError
        case Ok(rest) => Ok(if k then [data[0]] + rest else rest)
  }

  /** The records `iniciarBusca` hands to the renderer for the text typed
      into the search box: all of them for an empty query. */
  function Results(input: string, data: seq<Entry>): Result<seq<Entry>> {
    var term := Lower(input);
    if term == "" then Ok(data) else FilterData(data, term)
  }

  // ---------------------------------------------------------------------
  // Reference definition of a match, stated with substrings

  /** `term` is a substring of the lower-cased `field`. */
  ghost predicate Mentions(field: string, term: string) {
    exists i :: OccursAt(Lower(field), term, i)
  }

  /** Some searchable field of the record, one of its tags or the name of
      one of its variations contains `term`, case-insensitively. */
  ghost predicate Hit(e: Entry, term: string) {
    || (e.name.Some? && Mentions(e.name.value, term))
    || (e.creationDate.Some? && Mentions(e.creationDate.value, term))
    || (e.description.Some? && Mentions(e.description.value, term))
    || (e.consoles.Some? && Mentions(e.consoles.value, term))
    || (e.tags.Some? && exists t :: t in e.tags.value && Mentions(t, term))
    || (e.variations.Some? && exists v :: v in e.variations.value && v.name.Some? && Mentions(v.name.value, term))
  }

  /** Every variation of the record has a name. */
  ghost predicate VariationsNamed(e: Entry) {
    e.variations.Some? ==> forall v :: v in e.variations.value ==> v.name.Some?
  }

  /** The records of `data` that are hits, in their original order. */
  ghost function Matching(data: seq<Entry>, term: string): seq<Entry> {
    if data == [] then []
    else (if Hit(data[0], term) then [data[0]] else []) + Matching(data[1..], term)
  }

  /** `r` is `s` with some elements dropped and the rest kept in order. */
  ghost predicate IsSubsequence(r: seq<Entry>, s: seq<Entry>)
    decreases |s|
  {
    if r == [] then true
    else if s == [] then false
    else (r[0] == s[0] && IsSubsequence(r[1..], s[1..])) || IsSubsequence(r, s[1..])
  }

  // ---------------------------------------------------------------------
  // Properties

  lemma FieldHitIff(field: string, term: string)
    ensures FieldHit(Some(field), term) <==> Mentions(field, term)
  {
    IncludesIff(Lower(field), term);
  }

  lemma TagHitIff(tags: seq<string>, term: string)
    ensures AnyTagHit(tags, term) <==> exists t :: t in tags && Mentions(t, term)
  {
    forall t | t in tags {
      FieldHitIff(t, term);
    }
  }

  /** With every variation named, the scan never throws and reports whether
      some variation's name contains the term. */
  lemma {:induction false} ScanNamed(vs: seq<Entry>, term: string)
    requires forall v :: v in vs ==> v.name.Some?
    ensures ScanVariations(vs, term) == Ok(exists v :: v in vs && v.name.Some? && Mentions(v.name.value, term))
  {
    if vs != [] {
      FieldHitIff(vs[0].name.value, term);
      ScanNamed(vs[1..], term);
      assert forall v :: v in vs <==> v == vs[0] || v in vs[1..];
    }
  }

  /** The scan throws exactly when it reaches a nameless variation before
      any named one has matched. */
  lemma {:induction false} ScanThrows(vs: seq<Entry>, term: string)
    ensures ScanVariations(vs, term) == TypeError <==>
      exists j :: 0 <= j < |vs| && vs[j].name.None? &&
        forall m :: 0 <= m < j ==> vs[m].name.Some? && !Mentions(vs[m].name.value, term)
  {
    if vs != [] {
      ScanThrows(vs[1..], term);
      if vs[0].name.Some? {
        FieldHitIff(vs[0].name.value, term);
        if ScanVariations(vs, term) == TypeError {
          var j :| 0 <= j < |vs[1..]| && vs[1..][j].name.None? &&
            forall m :: 0 <= m < j ==> vs[1..][m].name.Some? && !Mentions(vs[1..][m].name.value, term);
          assert vs[j + 1].name.None?;
          forall m | 0 <= m < j + 1
            ensures vs[m].name.Some? && !Mentions(vs[m].name.value, term)
          {
            if m > 0 { assert vs[m] == vs[1..][m - 1]; }
          }
        }
        if exists j :: 0 <= j < |vs| && vs[j].name.None? &&
            forall m :: 0 <= m < j ==> vs[m].name.Some? && !Mentions(vs[m].name.value, term) {
          var j :| 0 <= j < |vs| && vs[j].name.None? &&
            forall m :: 0 <= m < j ==> vs[m].name.Some? && !Mentions(vs[m].name.value, term);
          assert j > 0;
          assert vs[1..][j - 1].name.None?;
          forall m | 0 <= m < j - 1
            ensures vs[1..][m].name.Some? && !Mentions(vs[1..][m].name.value, term)
          {
            assert vs[1..][m] == vs[m + 1];
          }
        }
      } else {
        assert vs[0].name.None?;
      }
    }
  }

  /** With every variation named, the filter's callback decides `Hit`. */
  lemma KeepIsHit(e: Entry, term: string)
    requires VariationsNamed(e)
    ensures Keep(e, term) == Ok(Hit(e, term))
  {
    if e.name.Some? { FieldHitIff(e.name.value, term); }
    if e.creationDate.Some? { FieldHitIff(e.creationDate.value, term); }
    if e.description.Some? { FieldHitIff(e.description.value, term); }
    if e.consoles.Some? { FieldHitIff(e.consoles.value, term); }
    if e.tags.Some? { TagHitIff(e.tags.value, term); }
    if e.variations.Some? { ScanNamed(e.variations.value, term); }
  }

  /** With every variation named, filtering keeps exactly the hits, in order. */
  lemma {:induction false} FilterIsMatching(data: seq<Entry>, term: string)
    requires forall e :: e in data ==> VariationsNamed(e)
    ensures FilterData(data, term) == Ok(Matching(data, term))
  {
    if data != [] {
      KeepIsHit(data[0], term);
      assert forall e :: e in data[1..] ==> e in data;
      FilterIsMatching(data[1..], term);
      var rest := Matching(data[1..], term);
      if Hit(data[0], term) {
        assert Matching(data, term) == [data[0]] + rest;
      } else {
        assert Matching(data, term) == [] + rest == rest;
      }
    }
  }

  /** The filter throws exactly when its callback throws on some record. */
  lemma {:induction false} FilterThrows(data: seq<Entry>, term: string)
    ensures FilterData(data, term) == TypeError <==>
      exists i :: 0 <= i < |data| && Keep(data[i], term) == TypeError
  {
    if data != [] {
      FilterThrows(data[1..], term);
      if exists i :: 0 <= i < |data[1..]| && Keep(data[1..][i], term) == TypeError {
        var i :| 0 <= i < |data[1..]| && Keep(data[1..][i], term) == TypeError;
        assert Keep(data[i + 1], term) == TypeError;
      }
      if exists i :: 0 <= i < |data| && Keep(data[i], term) == TypeError {
        var i :| 0 <= i < |data| && Keep(data[i], term) == TypeError;
        if i > 0 { assert Keep(data[1..][i - 1], term) == TypeError; }
      }
    }
  }

  /** A record is in the result exactly when it is in the input and is a hit. */
  lemma {:induction false} MatchingMembers(data: seq<Entry>, term: string, e: Entry)
    ensures e in Matching(data, term) <==> e in data && Hit(e, term)
  {
    if data != [] {
      MatchingMembers(data[1..], term, e);
      assert e in data <==> e == data[0] || e in data[1..];
    }
  }

  /** The result keeps the input's order. */
  lemma {:induction false} MatchingInOrder(data: seq<Entry>, term: string)
    ensures IsSubsequence(Matching(data, term), data)
  {
    if data != [] {
      MatchingInOrder(data[1..], term);
      var rest := Matching(data[1..], term);
      if Hit(data[0], term) {
        assert Matching(data, term) == [data[0]] + rest;
        assert ([data[0]] + rest)[1..] == rest;
      } else {
        assert Matching(data, term) == rest;
        SubsequenceOfTail(rest, data);
      }
    }
  }

  lemma {:induction false} SubsequenceOfTail(r: seq<Entry>, s: seq<Entry>)
    requires s != [] && IsSubsequence(r, s[1..])
    ensures IsSubsequence(r, s)
  {
  }

  /** The search as a whole: an empty query returns the dataset unchanged;
      otherwise, when no nameless variation can be reached, it returns the
      hits of the lower-cased query in their original order. */
  lemma SearchSpec(input: string, data: seq<Entry>)
    ensures input == "" ==> Results(input, data) == Ok(data)
    ensures input != "" && (forall e :: e in data ==> VariationsNamed(e)) ==>
      Results(input, data) == Ok(Matching(data, Lower(input)))
  {
    LowerIdempotent(input);
    if input != "" && (forall e :: e in data ==> VariationsNamed(e)) {
      FilterIsMatching(data, Lower(input));
    }
  }

  /** The worked example: a PS4 game is found by "ps4" and not by "xbox". */
  function PersonaFive(): Entry {
    Entry(Some("Persona 5"), Some("2016"), Some("..."), Some("PS4"), Some(["jrpg"]),
          None, None, None, None, None, None, None)
  }

  lemma PersonaFoundByConsole()
    ensures Results("ps4", [PersonaFive()]) == Ok([PersonaFive()])
  {
    assert Lower("ps4") == "ps4";
    assert Lower("PS4") == "ps4";
    assert Includes("ps4", "ps4");
    assert FieldHit(PersonaFive().consoles, "ps4");
    assert Keep(PersonaFive(), "ps4") == Ok(true);
    assert [PersonaFive()][1..] == [];
    assert FilterData([], "ps4") == Ok([]);
    assert FilterData([PersonaFive()], "ps4") == Ok([PersonaFive()] + []);
    assert [PersonaFive()] + [] == [PersonaFive()];
    assert Results("ps4", [PersonaFive()]) == FilterData([PersonaFive()], "ps4");
  }

  lemma PersonaNotFoundByOtherConsole()
    ensures Results("xbox", [PersonaFive()]) == Ok([])
  {
    assert Lower("xbox") == "xbox";
    PersonaMissesXbox();
    assert Keep(PersonaFive(), "xbox") == Ok(false);
    assert [PersonaFive()][1..] == [];
  }

  lemma PersonaMissesXbox()
    ensures !PrincipalHit(PersonaFive(), "xbox")
  {
    LowerAvoidsX("Persona 5");
    LowerAvoidsX("2016");
    LowerAvoidsX("...");
    LowerAvoidsX("PS4");
    LowerAvoidsX("jrpg");
    assert !AnyTagHit(["jrpg"], "xbox") by {
      assert forall t :: t in ["jrpg"] ==> t == "jrpg";
    }
  }

  /** A string without an `x` or `X` does not contain "xbox" once lower-cased. */
  lemma LowerAvoidsX(s: string)
    requires 'x' !in s && 'X' !in s
    ensures !Includes(Lower(s), "xbox")
  {
    assert 'x' !in Lower(s) by {
      forall i | 0 <= i < |s| ensures Lower(s)[i] != 'x' {
        assert s[i] != 'x' && s[i] != 'X';
      }
    }
    Absent(Lower(s), "xbox");
  }

  lemma {:induction false} Absent(hay: string, needle: string)
    requires needle != [] && needle[0] !in hay
    ensures !Includes(hay, needle)
    decreases |hay|
  {
    if hay != [] {
      assert hay[0] != needle[0];
      Absent(hay[1..], needle);
    }
  }
}

/**
 * Choosing the country and the organisation from the named entities that the
 * language model found in one affiliation (`extract_country_and_org`).
 * The model itself is not part of this module: its output is the input here.
 */
module Entities {
  import opened Wrappers
  import opened Frame
  import opened Text

  /** One entity span: its kind (spaCy's `label_`: `GPE`, `ORG`, ...) and its text, in document order. */
  datatype Entity = Entity(kind: string, text: string)

  const GPE: string := "GPE"
  const ORG: string := "ORG"

  /** `[e.text for e in ents if e.label_ == kind]`. */
  function Texts(ents: seq<Entity>, kind: string): seq<string>
    decreases |ents|
  {
    if ents == [] then []
    else
      var last := ents[|ents| - 1];
      Texts(ents[..|ents| - 1], kind) + (if last.kind == kind then [last.text] else [])
  }

  /** The position of the last entity with the kind. */
  function LastIndex(ents: seq<Entity>, kind: string): (r: Option<nat>)
    decreases |ents|
    ensures r.Some? ==> r.value < |ents| && ents[r.value].kind == kind
    ensures r.Some? ==> forall j :: r.value < j < |ents| ==> ents[j].kind != kind
    ensures r.None? ==> forall j :: 0 <= j < |ents| ==> ents[j].kind != kind
  {
    if ents == [] then None
    else if ents[|ents| - 1].kind == kind then Some(|ents| - 1)
    else LastIndex(ents[..|ents| - 1], kind)
  }

  /** `texts[-1]` is the text of the last entity with the kind, and the list is empty when there is none. */
  lemma {:induction false} LastOfTexts(ents: seq<Entity>, kind: string)
    ensures Texts(ents, kind) == [] <==> LastIndex(ents, kind).None?
    ensures Texts(ents, kind) != [] ==>
      Texts(ents, kind)[|Texts(ents, kind)| - 1] == ents[LastIndex(ents, kind).value].text
    decreases |ents|
  {
    if ents != [] && ents[|ents| - 1].kind != kind {
      LastOfTexts(ents[..|ents| - 1], kind);
    }
  }

  /**
   * The country of one affiliation: the converter's name for the last place
   * mention, kept only when it is one of the standard country names.
   */
  function ResolvedCountry(ents: seq<Entity>, convert: string -> string, countryNames: seq<string>): (r: Cell)
    ensures r.Null? || r.Str?
    ensures r.Str? ==> r.s in countryNames
    ensures LastIndex(ents, GPE).None? ==> r == Null
    ensures LastIndex(ents, GPE).Some? ==>
      var place := ents[LastIndex(ents, GPE).value].text;
      r == if convert(place) in countryNames then Str(convert(place)) else Null
  {
    var places := Texts(ents, GPE);
    LastOfTexts(ents, GPE);
    if places == [] then Null
    else
      var likely := convert(places[|places| - 1]);
      if likely in countryNames then Str(likely) else Null
  }

  /**
   * The organisation of one affiliation: the last organisation mention, cut
   * after its final ", ".
   */
  function ResolvedOrganisation(ents: seq<Entity>): (r: Cell)
    ensures r.Null? || r.Str?
    ensures r.Null? <==> LastIndex(ents, ORG).None?
    ensures r.Str? ==>
      var t := ents[LastIndex(ents, ORG).value].text;
      && |r.s| <= |t| && r.s == t[|t| - |r.s|..]
      && !Contains(r.s, ", ")
      && (!Contains(t, ", ") ==> r.s == t)
      && (Contains(t, ", ") ==> OccursAt(t, ", ", |t| - |r.s| - 2))
  {
    var orgs := Texts(ents, ORG);
    LastOfTexts(ents, ORG);
    if orgs == [] then Null
    else
      LastPieceShape(orgs[|orgs| - 1], ", ");
      Str(LastPiece(orgs[|orgs| - 1], ", "))
  }
}

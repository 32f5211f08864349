/**
 * `transform` of pipeline.py: the stages in their fixed order, and the
 * projection onto the output columns.
 */
module Pipeline {
  import opened Wrappers
  import opened Frame
  import opened Patterns
  import opened Entities
  import opened Registry
  import Levenshtein
  import opened Transform

  /**
   * What the core reads but does not compute, fixed for a run: the language
   * model (text to entities), the country converter, the standard country
   * names and the institute registry.
   */
  datatype Context = Context(
    ner: string -> seq<Entity>, convert: string -> string,
    countryNames: seq<string>, registry: seq<Institute>)

  /** Selecting a column the frame does not have: pandas' KeyError. */
  datatype Error = MissingColumn(name: string)

  /**
   * One output row: pmid, title, keyword_list, mesh_list, year, forename,
   * lastname, initials, email, affiliation, organisation, postcode, country,
   * identity, in this order.
   */
  datatype OutputRow = OutputRow(
    pmid: Cell, title: Cell, keywordList: Option<seq<Cell>>, meshList: Option<seq<Cell>>,
    year: Cell, forename: Cell, lastname: Cell, initials: Cell,
    email: Cell, affiliation: Cell, organisation: Cell, postcode: Cell, country: Cell, identity: Cell)

  /** The column selection at the end of `transform`. */
  function Project(r: Row): OutputRow {
    var b := r.biblio;
    OutputRow(b.pmid, b.title, b.keywordList, b.meshList, b.year, b.forename, b.lastname, b.initials,
              r.email, r.affiliation, r.organisation, r.postcode, r.country, r.identity)
  }

  /**
   * One exploded row after every later stage: email and postcode from the
   * affiliation text alone, then country and organisation from the entities,
   * then the registry match, which reads the country and organisation just written.
   */
  function Resolved(row: Row, ctx: Context): Row {
    var withFields := row.(email := Extract(Email, row.affiliation), postcode := PostcodeOf(row.affiliation));
    var withEntities := WithCountryAndOrg(withFields, ctx.ner, ctx.convert, ctx.countryNames);
    WithMatch(withEntities, ctx.registry)
  }

  /**
   * `dataframe.parallel_apply(extract_country_and_org, axis=1)`, one row after
   * another. `added` tells whether any returned row carried the country and
   * organisation keys, i.e. whether the new frame has those columns at all.
   */
  method ApplyCountryAndOrg(df: array<Row>, ctx: Context) returns (out: array<Row>, added: bool)
    ensures fresh(out) && out.Length == df.Length
    ensures forall k :: 0 <= k < df.Length ==> out[k] == WithCountryAndOrg(df[k], ctx.ner, ctx.convert, ctx.countryNames)
    ensures added <==> exists k :: 0 <= k < df.Length && Truthy(df[k].affiliation)
  {
    out := new Row[df.Length];
    added := false;
    for i := 0 to df.Length
      invariant forall k :: 0 <= k < i ==> out[k] == WithCountryAndOrg(df[k], ctx.ner, ctx.convert, ctx.countryNames)
      invariant added <==> exists k :: 0 <= k < i && Truthy(df[k].affiliation)
    {
      out[i] := ExtractCountryAndOrg(df[i], ctx.ner, ctx.convert, ctx.countryNames);
      added := added || Truthy(df[i].affiliation);
    }
  }

  /** `dataframe.parallel_apply(get_match, axis=1)`, one row after another. */
  method ApplyMatch(df: array<Row>, registry: seq<Institute>) returns (out: array<Row>)
    ensures fresh(out) && out.Length == df.Length
    ensures forall k :: 0 <= k < df.Length ==> out[k] == WithMatch(df[k], registry)
  {
    out := new Row[df.Length];
    for i := 0 to df.Length
      invariant forall k :: 0 <= k < i ==> out[k] == WithMatch(df[k], registry)
    {
      out[i] := GetMatch(df[i], registry);
    }
  }

  /**
   * `transform`: split, email, postcode, country and organisation, match,
   * projection. When no row has a truthy affiliation, no row ever gets an
   * organisation column and `get_match` fails looking it up.
   */
  method TransformFrame(records: seq<Record>, ctx: Context) returns (result: Result<seq<OutputRow>, Error>)
    ensures result.Failure? <==> forall k :: 0 <= k < |Exploded(records)| ==> !Truthy(Exploded(records)[k].affiliation)
    ensures result.Success? ==> |result.value| == |Exploded(records)| == SegmentTotal(records)
    ensures result.Success? ==> forall k :: 0 <= k < |result.value| ==>
      result.value[k] == Project(Resolved(Exploded(records)[k], ctx))
  {
    var df := SplitAffiliations(records);
    AddEmail(df);
    AddPostcodes(df);
    var withEntities, added := ApplyCountryAndOrg(df, ctx);
    if !added {
      return Failure(MissingColumn("organisation"));
    }
    var matched := ApplyMatch(withEntities, ctx.registry);
    var rows := seq(matched.Length, k requires 0 <= k < matched.Length reads matched => Project(matched[k]));
    return Success(rows);
  }

  /**
   * `transform` as evidently meant: the country and organisation columns exist
   * even when no segment is truthy (as missing values), so every input yields
   * one resolved row per segment.
   */
  method TransformAll(records: seq<Record>, ctx: Context) returns (rows: seq<OutputRow>)
    ensures |rows| == |Exploded(records)| == SegmentTotal(records)
    ensures forall k :: 0 <= k < |rows| ==> rows[k] == Project(Resolved(Exploded(records)[k], ctx))
  {
    var df := SplitAffiliations(records);
    AddEmail(df);
    AddPostcodes(df);
    var withEntities, _ := ApplyCountryAndOrg(df, ctx);
    var matched := ApplyMatch(withEntities, ctx.registry);
    rows := seq(matched.Length, k requires 0 <= k < matched.Length reads matched => Project(matched[k]));
  }

  /**
   * A single author whose affiliation list was empty (pandas' `explode` gives
   * NaN) yields one exploded row with a None segment, which is all it takes
   * for `TransformFrame` to fail.
   */
  lemma NoAffiliationFails(b: Biblio)
    ensures var rows := Exploded([Record(b, Null, NaN)]);
      |rows| == 1 && !Truthy(rows[0].affiliation)
  {
  }

  /** A segment that is None or empty matches no pattern. */
  lemma FalsyAffiliationFields(aff: Cell)
    requires !Truthy(aff)
    ensures Extract(Email, aff) == NaN && PostcodeOf(aff) == NaN
  {
  }

  /**
   * A row straight out of the split keeps its record's columns and its segment;
   * its email and postcode come from the segment alone, and its country is
   * missing, None or a standard country name.
   */
  lemma ResolvedColumns(row: Row, ctx: Context)
    requires row.country == NaN
    ensures var r := Resolved(row, ctx);
      && r.biblio == row.biblio && r.affiliation == row.affiliation
      && r.email == Extract(Email, row.affiliation) && r.postcode == PostcodeOf(row.affiliation)
      && (r.country == NaN || r.country == Null || (r.country.Str? && r.country.s in ctx.countryNames))
  {
  }

  /**
   * A truthy organisation in the result is a registry name with its own GRID id
   * beside it, from the row's country when that is a string; any other identity
   * is the record's own or None.
   */
  lemma ResolvedIdentity(row: Row, ctx: Context)
    ensures var r := Resolved(row, ctx);
      && (Truthy(r.organisation) ==>
            exists x :: && x in ctx.registry && r.organisation == Str(x.name) && r.identity == Str(x.gridId)
                        && (Truthy(r.country) ==> r.country == Str(x.country)))
      && (!Truthy(r.organisation) ==> r.identity == row.identity || r.identity == Null)
  {
    var before := WithCountryAndOrg(row.(email := Extract(Email, row.affiliation), postcode := PostcodeOf(row.affiliation)),
                                    ctx.ner, ctx.convert, ctx.countryNames);
    var o := MatchOutcome(before.organisation, before.country, ctx.registry);
    if o.Matched? {
      Levenshtein.EmptyNameRejected(before.organisation.s);
    }
  }

  /**
   * A None or empty segment: no email, postcode or country, and organisation and
   * identity both None (the missing organisation is truthy, the missing country
   * selects no registry row, so the match fails).
   */
  lemma ResolvedFalsy(row: Row, ctx: Context)
    requires row.country == NaN && row.organisation == NaN && !Truthy(row.affiliation)
    ensures var r := Resolved(row, ctx);
      r.email == NaN && r.postcode == NaN && r.country == NaN && r.organisation == Null && r.identity == Null
  {
  }

  /**
   * What every output row of `transform` holds, given the exploded row it
   * comes from: the record's columns and its segment untouched; email and
   * postcode read from the segment alone; a country that is missing, None or
   * a standard name; an organisation that, when set, is a registry name whose
   * GRID id stands beside it; and, for a None or empty segment, missing
   * email, postcode and country with organisation and identity both None.
   */
  lemma OutputRowFacts(records: seq<Record>, ctx: Context, k: nat)
    requires k < |Exploded(records)|
    ensures var row := Exploded(records)[k];
      var out := Project(Resolved(row, ctx));
      && out.pmid == row.biblio.pmid && out.title == row.biblio.title && out.year == row.biblio.year
      && out.keywordList == row.biblio.keywordList && out.meshList == row.biblio.meshList
      && out.forename == row.biblio.forename && out.lastname == row.biblio.lastname
      && out.initials == row.biblio.initials && out.affiliation == row.affiliation
      && out.email == Extract(Email, row.affiliation) && out.postcode == PostcodeOf(row.affiliation)
      && (out.country == NaN || out.country == Null || (out.country.Str? && out.country.s in ctx.countryNames))
      && (Truthy(out.organisation) ==>
            exists x :: && x in ctx.registry && out.organisation == Str(x.name) && out.identity == Str(x.gridId)
                        && (Truthy(out.country) ==> out.country == Str(x.country)))
      && (!Truthy(out.organisation) ==> out.identity == row.identity || out.identity == Null)
      && (!Truthy(row.affiliation) ==>
            out.email == NaN && out.postcode == NaN && out.country == NaN && out.organisation == Null && out.identity == Null)
  {
    var row := Exploded(records)[k];
    ResolvedColumns(row, ctx);
    ResolvedIdentity(row, ctx);
    if !Truthy(row.affiliation) {
      ResolvedFalsy(row, ctx);
    }
  }
}

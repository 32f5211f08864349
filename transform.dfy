/**
 * The stages of transform.py: splitting affiliations into rows, adding the
 * email and postcode columns in place, and the two per-row stages that the
 * pipeline applies to every row (country and organisation, registry match).
 */
module Transform {
  import opened Wrappers
  import opened Frame
  import opened Text
  import opened Patterns
  import opened Levenshtein
  import opened Entities
  import opened Registry

  // ---------------------------------------------------------------- split_affiliations

  /** `replace("nan", None)`: only a segment that is exactly "nan" becomes None. */
  function SegmentCell(seg: string): (c: Cell)
    ensures c.Null? <==> seg == "nan"
    ensures seg != "nan" ==> c == Str(seg)
  {
    if seg == "nan" then Null else Str(seg)
  }

  /** `str(x).split(';')`. */
  function Segments(aff: Cell): seq<string> {
    Split(PyStr(aff), ";")
  }

  /**
   * The rows one record explodes into: one per segment, in order, every other
   * column copied, and the columns later stages add not yet present.
   */
  function RowsOf(rec: Record): (rows: seq<Row>)
    ensures |rows| == |Segments(rec.affiliation)| == CountChar(PyStr(rec.affiliation), ';') + 1
    ensures Join(Segments(rec.affiliation), ";") == PyStr(rec.affiliation)
    ensures forall k :: 0 <= k < |rows| ==>
      && !Contains(Segments(rec.affiliation)[k], ";")
      && rows[k] == Row(rec.biblio, rec.identity, SegmentCell(Segments(rec.affiliation)[k]), NaN, NaN, NaN, NaN)
  {
    var segs := Segments(rec.affiliation);
    SplitCount(PyStr(rec.affiliation), ';');
    JoinSplit(PyStr(rec.affiliation), ";");
    SplitPieces(PyStr(rec.affiliation), ";");
    seq(|segs|, k requires 0 <= k < |segs| => Row(rec.biblio, rec.identity, SegmentCell(segs[k]), NaN, NaN, NaN, NaN))
  }

  /** The total number of segments over all records. */
  function SegmentTotal(records: seq<Record>): nat
    decreases |records|
  {
    if records == [] then 0
    else SegmentTotal(records[..|records| - 1]) + CountChar(PyStr(records[|records| - 1].affiliation), ';') + 1
  }

  /** `dataframe.explode('affiliation')` after the split: the records' rows, record after record. */
  function Exploded(records: seq<Record>): (rows: seq<Row>)
    decreases |records|
    ensures |rows| == SegmentTotal(records)
    ensures forall k :: 0 <= k < |rows| ==>
      rows[k].email == NaN && rows[k].postcode == NaN && rows[k].country == NaN && rows[k].organisation == NaN
    ensures forall k :: 0 <= k < |rows| ==> !rows[k].affiliation.NaN?
  {
    if records == [] then []
    else Exploded(records[..|records| - 1]) + RowsOf(records[|records| - 1])
  }

  /**
   * A trailing "; " leaves a last segment of one space, kept as a string:
   * only "nan" becomes None.
   */
  lemma TrailingSeparator()
    ensures Segments(Str("Dept A; Dept B; ")) == ["Dept A", " Dept B", " "]
    ensures SegmentCell(" ") == Str(" ")
  {
    SplitFirst();
    SplitSecond();
  }

  lemma SplitFirst()
    ensures Split("Dept A; Dept B; ", ";") == ["Dept A"] + Split(" Dept B; ", ";")
  {
    var s := "Dept A; Dept B; ";
    FirstSemicolon();
    assert s[7..] == " Dept B; ";
    assert s[..6] == "Dept A";
  }

  lemma SplitSecond()
    ensures Split(" Dept B; ", ";") == [" Dept B", " "]
  {
    var t := " Dept B; ";
    SecondSemicolon();
    NoSemicolon();
    assert t[8..] == " ";
    assert t[..7] == " Dept B";
  }

  lemma FirstSemicolon()
    ensures IndexFrom("Dept A; Dept B; ", ";", 0) == Some(6)
  {
    var s := "Dept A; Dept B; ";
    assert s[0..1] == "D" && s[1..2] == "e" && s[2..3] == "p" && s[3..4] == "t";
    assert s[4..5] == " " && s[5..6] == "A" && s[6..7] == ";";
    assert IndexFrom(s, ";", 6) == Some(6);
    assert IndexFrom(s, ";", 4) == Some(6);
    assert IndexFrom(s, ";", 2) == Some(6);
  }

  lemma SecondSemicolon()
    ensures IndexFrom(" Dept B; ", ";", 0) == Some(7)
  {
    var t := " Dept B; ";
    assert t[0..1] == " " && t[1..2] == "D" && t[2..3] == "e" && t[3..4] == "p";
    assert t[4..5] == "t" && t[5..6] == " " && t[6..7] == "B" && t[7..8] == ";";
    assert IndexFrom(t, ";", 7) == Some(7);
    assert IndexFrom(t, ";", 5) == Some(7);
    assert IndexFrom(t, ";", 3) == Some(7);
    assert IndexFrom(t, ";", 1) == Some(7);
  }

  lemma NoSemicolon()
    ensures Split(" ", ";") == [" "]
  {
    var u := " ";
    assert u[0..1] == " ";
    assert IndexFrom(u, ";", 0) == None;
  }

  /** `split_affiliations`: a new frame with one row per segment. */
  method SplitAffiliations(records: seq<Record>) returns (df: array<Row>)
    ensures fresh(df)
    ensures df[..] == Exploded(records)
  {
    var rows: seq<Row> := [];
    for i := 0 to |records|
      invariant rows == Exploded(records[..i])
    {
      assert records[..i + 1][..i] == records[..i];
      rows := rows + RowsOf(records[i]);
    }
    assert records[..|records|] == records;
    df := new Row[|rows|](k requires 0 <= k < |rows| => rows[k]);
  }

  // ---------------------------------------------------------------- email and postcode columns

  /** `dataframe['affiliation'].str.extract(regex)`: a new column. */
  method ExtractColumn(df: array<Row>, pat: Pattern) returns (col: array<Cell>)
    ensures fresh(col) && col.Length == df.Length
    ensures forall k :: 0 <= k < df.Length ==> col[k] == Extract(pat, df[k].affiliation)
  {
    col := new Cell[df.Length];
    for i := 0 to df.Length
      invariant forall k :: 0 <= k < i ==> col[k] == Extract(pat, df[k].affiliation)
    {
      col[i] := Extract(pat, df[i].affiliation);
    }
  }

  /** `add_email_to_dataframe`: writes the email column in place. */
  method AddEmail(df: array<Row>)
    modifies df
    ensures forall k :: 0 <= k < df.Length ==>
      df[k] == old(df[k]).(email := Extract(Email, old(df[k]).affiliation))
  {
    var emails := ExtractColumn(df, Email);
    for i := 0 to df.Length
      invariant forall k :: 0 <= k < df.Length ==> emails[k] == Extract(Email, old(df[k]).affiliation)
      invariant forall k :: 0 <= k < i ==> df[k] == old(df[k]).(email := emails[k])
      invariant forall k :: i <= k < df.Length ==> df[k] == old(df[k])
    {
      df[i] := df[i].(email := emails[i]);
    }
  }

  /** One cell of `DataFrame.update`: the other frame's value wins unless it is missing. */
  function Overwrite(base: Cell, other: Cell): (c: Cell)
    ensures c == base || c == other
    ensures IsNA(c) <==> IsNA(base) && IsNA(other)
  {
    if IsNA(other) then base else other
  }

  /** A present value always wins: the other column's string replaces whatever the base holds. */
  lemma OverwritePresent(base: Cell, s: string)
    ensures Overwrite(base, Str(s)) == Str(s)
  {
  }

  /** A missing value overwrites nothing, and overwriting with the same value twice changes nothing more. */
  lemma OverwriteMissing(base: Cell, other: Cell)
    ensures Overwrite(base, NaN) == base && Overwrite(base, Null) == base
    ensures Overwrite(Overwrite(base, other), other) == Overwrite(base, other)
  {
  }

  /**
   * Successive updates compose: updating with `a` and then with `b` is updating
   * once with `a` overwritten by `b`. So a chain of updates keeps the last
   * value present, and the first column only where all later ones are missing.
   */
  lemma OverwriteAssociative(base: Cell, a: Cell, b: Cell)
    ensures Overwrite(Overwrite(base, a), b) == Overwrite(base, Overwrite(a, b))
  {
  }

  /** `target.update(other)` for two columns on the same index, in place. */
  method Update(target: array<Cell>, other: array<Cell>)
    requires target.Length == other.Length
    modifies target
    ensures forall k :: 0 <= k < target.Length ==> target[k] == Overwrite(old(target[k]), old(other[k]))
  {
    for i := 0 to target.Length
      invariant forall k :: 0 <= k < i ==> target[k] == Overwrite(old(target[k]), old(other[k]))
      invariant forall k :: i <= k < target.Length ==> target[k] == old(target[k]) && other[k] == old(other[k])
    {
      target[i] := Overwrite(target[i], other[i]);
    }
  }

  /**
   * `add_postcodes_to_dataframe`: the British column updated by the American
   * one and then by the Canadian one, written in place. The result is the
   * Canadian match if any, else the American digits if any, else the British match.
   */
  method AddPostcodes(df: array<Row>)
    modifies df
    ensures forall k :: 0 <= k < df.Length ==>
      df[k] == old(df[k]).(postcode := PostcodeOf(old(df[k]).affiliation))
  {
    var british := PostcodeColumn(df);
    for i := 0 to df.Length
      invariant forall k :: 0 <= k < df.Length ==> british[k] == PostcodeOf(old(df[k]).affiliation)
      invariant forall k :: 0 <= k < i ==> df[k] == old(df[k]).(postcode := british[k])
      invariant forall k :: i <= k < df.Length ==> df[k] == old(df[k])
    {
      df[i] := df[i].(postcode := british[i]);
    }
  }

  /** The three extractions and the two updates, giving the column written back. */
  method PostcodeColumn(df: array<Row>) returns (british: array<Cell>)
    ensures fresh(british) && british.Length == df.Length
    ensures forall k :: 0 <= k < df.Length ==> british[k] == PostcodeOf(df[k].affiliation)
  {
    british := ExtractColumn(df, British);
    var american := ExtractColumn(df, American);
    var canadian := ExtractColumn(df, Canadian);
    Update(british, american);
    Update(british, canadian);
  }


  // ---------------------------------------------------------------- extract_country_and_org

  /**
   * The row `extract_country_and_org` returns. A falsy affiliation leaves the row
   * as it is; otherwise country and organisation are set from the entities the
   * model finds in `str(affiliation)`, and nothing else changes.
   */
  function WithCountryAndOrg(row: Row, ner: string -> seq<Entity>, convert: string -> string, countryNames: seq<string>): (r: Row)
    ensures !Truthy(row.affiliation) ==> r == row
    ensures r == row.(country := r.country, organisation := r.organisation)
    ensures r.country == row.country || r.country == Null || (r.country.Str? && r.country.s in countryNames)
    ensures Truthy(row.affiliation) ==> var ents := ner(PyStr(row.affiliation));
      r.country == ResolvedCountry(ents, convert, countryNames) && r.organisation == ResolvedOrganisation(ents)
  {
    if !Truthy(row.affiliation) then row
    else
      var ents := ner(PyStr(row.affiliation));
      row.(country := ResolvedCountry(ents, convert, countryNames), organisation := ResolvedOrganisation(ents))
  }

  /** `extract_country_and_org`, assigning the row's fields one by one. */
  method ExtractCountryAndOrg(row: Row, ner: string -> seq<Entity>, convert: string -> string, countryNames: seq<string>)
    returns (r: Row)
    ensures r == WithCountryAndOrg(row, ner, convert, countryNames)
  {
    r := row;
    if !Truthy(r.affiliation) {
      return;
    }
    var ents := ner(PyStr(r.affiliation));
    var places := Texts(ents, GPE);
    if places == [] {
      r := r.(country := Null);
    } else {
      var likely := convert(places[|places| - 1]);
      if likely in countryNames {
        r := r.(country := Str(likely));
      } else {
        r := r.(country := Null);
      }
    }
    var orgs := Texts(ents, ORG);
    if orgs == [] {
      r := r.(organisation := Null);
    } else {
      SplitPieces(orgs[|orgs| - 1], ", ");
      var pieces := Split(orgs[|orgs| - 1], ", ");
      r := r.(organisation := Str(pieces[|pieces| - 1]));
    }
  }

  // ---------------------------------------------------------------- get_match

  /** The registry rows `get_match` scores: those of the row's country when it is truthy, else all. */
  function Pool(registry: seq<Institute>, country: Cell): (pool: seq<Institute>)
    ensures forall x :: x in pool ==> x in registry
    ensures Truthy(country) ==> forall x :: x in pool <==> x in registry && country == Str(x.country)
    ensures !Truthy(country) ==> pool == registry
  {
    if Truthy(country) then RowsIn(registry, country) else registry
  }

  /** What `get_match` does to a row. */
  datatype Outcome = Unchanged | NoMatch | Matched(institute: Institute)

  /**
   * A falsy organisation leaves the row alone. Otherwise the match is the first
   * pool row with the highest similarity, provided it reaches the cutoff; a
   * NaN organisation scores zero against every name.
   */
  function MatchOutcome(org: Cell, country: Cell, registry: seq<Institute>): (o: Outcome)
    ensures o.Unchanged? <==> !Truthy(org)
    ensures o.NoMatch? <==> Truthy(org) && (org.Str? ==> forall x :: x in Pool(registry, country) ==> !Accepts(org.s, x.name))
    ensures o.Matched? ==>
      && org.Str? && o.institute in registry && Accepts(org.s, o.institute.name)
      && (Truthy(country) ==> country == Str(o.institute.country))
    ensures o.Matched? ==> var pool := Pool(registry, country);
      exists w :: && 0 <= w < |pool| && pool[w] == o.institute
                  && (forall j :: 0 <= j < w ==> Similarity(org.s, pool[j].name) < Similarity(org.s, o.institute.name))
                  && (forall j :: 0 <= j < |pool| ==> Similarity(org.s, pool[j].name) <= Similarity(org.s, o.institute.name))
  {
    if !Truthy(org) then Unchanged
    else
      var pool := Pool(registry, country);
      match org
      case Str(q) =>
        (match ExtractOne(q, Names(pool))
         case None =>
           NoneAccepted(q, pool);
           NoMatch
         case Some(w) =>
           BestRow(q, pool, w);
           Matched(pool[FirstNamed(pool, pool[w].name).value]))
      case _ => NoMatch
  }

  /**
   * For a truthy country, the matched institute is the first registry row that has
   * that country and the winning name: it is that row's GRID id that is taken.
   */
  lemma MatchedFirstInRegistry(org: Cell, country: Cell, registry: seq<Institute>)
    requires Truthy(country) && MatchOutcome(org, country, registry).Matched?
    ensures var x := MatchOutcome(org, country, registry).institute;
      exists k :: && 0 <= k < |registry| && registry[k] == x && country == Str(x.country)
                  && forall j :: 0 <= j < k ==> country != Str(registry[j].country) || registry[j].name != x.name
  {
    var pool := Pool(registry, country);
    var w := ExtractOne(org.s, Names(pool)).value;
    var name := pool[w].name;
    assert FirstNamed(pool, name).Some?;
    FirstInPool(registry, country, name);
  }

  lemma NoneAccepted(q: string, pool: seq<Institute>)
    requires ExtractOne(q, Names(pool)) == None
    ensures forall x :: x in pool ==> !Accepts(q, x.name)
  {
  }

  /**
   * The row `extractOne` picks reaches the cutoff, scores as high as any pool row
   * and higher than every row before it; so it is also the first row carrying
   * its name, the one whose GRID id is taken.
   */
  lemma BestRow(q: string, pool: seq<Institute>, w: nat)
    requires ExtractOne(q, Names(pool)) == Some(w)
    ensures w < |pool| && FirstNamed(pool, pool[w].name) == Some(w)
    ensures Accepts(q, pool[w].name)
    ensures forall j :: 0 <= j < w ==> Similarity(q, pool[j].name) < Similarity(q, pool[w].name)
    ensures forall j :: 0 <= j < |pool| ==> Similarity(q, pool[j].name) <= Similarity(q, pool[w].name)
  {
    var names := Names(pool);
    var name := pool[w].name;
    assert names[w] == name;
    forall j | 0 <= j < |pool| ensures Similarity(q, pool[j].name) <= Similarity(q, name) {
      assert names[j] == pool[j].name;
    }
    forall j | 0 <= j < w ensures Similarity(q, pool[j].name) < Similarity(q, name) {
      assert names[j] == pool[j].name;
    }
    forall j | 0 <= j < w ensures pool[j].name != name {
      assert Similarity(q, pool[j].name) < Similarity(q, name);
    }
    FirstNamedAt(pool, w);
  }

  /** A row whose name no earlier row carries is the first row with that name. */
  lemma FirstNamedAt(pool: seq<Institute>, w: nat)
    requires w < |pool|
    requires forall j :: 0 <= j < w ==> pool[j].name != pool[w].name
    ensures FirstNamed(pool, pool[w].name) == Some(w)
  {
  }

  /**
   * The row `get_match` returns: unchanged (identity included) for a falsy
   * organisation; the registry's name and GRID id on a match; both None otherwise.
   */
  function WithMatch(row: Row, registry: seq<Institute>): (r: Row)
    ensures !Truthy(row.organisation) ==> r == row
    ensures r == row.(organisation := r.organisation, identity := r.identity)
    ensures Truthy(row.organisation) ==> (r.organisation.Null? <==> r.identity.Null?)
    ensures Truthy(r.organisation) ==>
      exists x :: && x in registry && r.organisation == Str(x.name) && r.identity == Str(x.gridId)
                  && (Truthy(r.country) ==> r.country == Str(x.country))
    ensures match MatchOutcome(row.organisation, row.country, registry)
      case Unchanged => r == row
      case NoMatch => r.organisation == Null && r.identity == Null
      case Matched(x) => r.organisation == Str(x.name) && r.identity == Str(x.gridId)
  {
    match MatchOutcome(row.organisation, row.country, registry)
    case Unchanged => row
    case NoMatch => row.(organisation := Null, identity := Null)
    case Matched(x) => row.(organisation := Str(x.name), identity := Str(x.gridId))
  }

  /** `get_match`, assigning the row's fields one by one. */
  method GetMatch(row: Row, registry: seq<Institute>) returns (r: Row)
    ensures r == WithMatch(row, registry)
  {
    r := row;
    if !Truthy(r.organisation) {
      return;
    }
    var pool := if Truthy(r.country) then RowsIn(registry, r.country) else registry;
    var best := if r.organisation.Str? then ExtractOne(r.organisation.s, Names(pool)) else None;
    if best.Some? {
      var name := Names(pool)[best.value];
      BestRow(row.organisation.s, pool, best.value);
      var first := FirstNamed(pool, name).value;
      r := r.(organisation := Str(name));
      r := r.(identity := Str(pool[first].gridId));
      return;
    }
    r := r.(organisation := Null);
    r := r.(identity := Null);
  }
}

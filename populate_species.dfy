/**
 * populate_species.js: one run over every `bird_species` row. A row missing
 * its scientific name or family takes scientific name, family, order and
 * extinction status from the first taxonomy record with the same
 * lower-cased common name.
 */
module PopulateSpecies {
  import opened Wrappers
  import opened Tables
  import opened Taxonomy

  /** A column JavaScript finds falsy: NULL or the empty string. */
  predicate Falsy(v: Option<string>) {
    v.None? || v.value == ""
  }

  /** `!row.scientific_name || !row.family` */
  predicate Incomplete(row: SpeciesRow) {
    Falsy(row.scientificName) || Falsy(row.family)
  }

  function StatusText(extinct: bool): string {
    if extinct then "Extinct" else "Not Extinct"
  }

  /**
   * `row.common_name.toLowerCase()` on a NULL name throws a TypeError as soon
   * as `find` calls its callback, which it does when the taxonomy is not
   * empty; the run's `catch` then ends the loop.
   */
  predicate Throws(row: SpeciesRow, taxonomy: seq<TaxonEntry>) {
    Incomplete(row) && row.commonName.None? && |taxonomy| > 0
  }

  /** What one iteration of the loop makes of a row it does not throw on. */
  function Populated(row: SpeciesRow, taxonomy: seq<TaxonEntry>): (r: SpeciesRow)
    ensures r.id == row.id && r.commonName == row.commonName
  {
    if !Incomplete(row) || row.commonName.None? then row
    else
      match FirstMatch(taxonomy, row.commonName.value)
      case None => row
      case Some(i) =>
        var m := taxonomy[i];
        row.(scientificName := Some(m.sciName), family := Some(m.familyComName),
             orderName := Some(m.order), status := Some(StatusText(m.extinct)))
  }

  /** The position of the first row the loop throws on, or the number of rows. */
  function StopIndex(rows: seq<SpeciesRow>, taxonomy: seq<TaxonEntry>): (r: nat)
    ensures r <= |rows|
    ensures forall k :: 0 <= k < r ==> !Throws(rows[k], taxonomy)
    ensures r < |rows| ==> Throws(rows[r], taxonomy)
  {
    if rows == [] || Throws(rows[0], taxonomy) then 0
    else 1 + StopIndex(rows[1..], taxonomy)
  }

  /** The table after a run: the rows before the stop are populated, the others as they were. */
  function PopulatePass(rows: seq<SpeciesRow>, taxonomy: seq<TaxonEntry>): (r: seq<SpeciesRow>)
    ensures |r| == |rows|
  {
    var stop := StopIndex(rows, taxonomy);
    seq(|rows|, k requires 0 <= k < |rows| =>
      if k < stop then Populated(rows[k], taxonomy) else rows[k])
  }

  /** `UPDATE bird_species SET scientific_name = ?, family = ?, order_name = ?, status = ? WHERE id = ?` */
  function SetDetails(rows: seq<SpeciesRow>, id: int, sciName: string, family: string,
                      orderName: string, status: string): (r: seq<SpeciesRow>)
    ensures |r| == |rows|
    ensures forall k :: 0 <= k < |rows| && rows[k].id != id ==> r[k] == rows[k]
    ensures forall k :: 0 <= k < |rows| && rows[k].id == id ==>
      && r[k].id == id && r[k].commonName == rows[k].commonName
      && r[k].scientificName == Some(sciName) && r[k].family == Some(family)
      && r[k].orderName == Some(orderName) && r[k].status == Some(status)
  {
    seq(|rows|, k requires 0 <= k < |rows| =>
      if rows[k].id == id
      then rows[k].(scientificName := Some(sciName), family := Some(family),
                    orderName := Some(orderName), status := Some(status))
      else rows[k])
  }

  method UpdateSpeciesInDB(db: BirdDb, id: int, sciName: string, family: string,
                           orderName: string, status: string)
    modifies db
    ensures db.State() == old(db.State()).(species := SetDetails(old(db.species), id, sciName, family, orderName, status))
  {
    db.species := SetDetails(db.species, id, sciName, family, orderName, status);
  }

  /** The table once the loop has handled the first `i` rows. */
  ghost function PopulatedUpTo(rows: seq<SpeciesRow>, i: nat, taxonomy: seq<TaxonEntry>): (r: seq<SpeciesRow>)
    ensures |r| == |rows|
  {
    seq(|rows|, k requires 0 <= k < |rows| => if k < i then Populated(rows[k], taxonomy) else rows[k])
  }

  /** Handling row `i` takes the table one row further; ids are unique, so only that row changes. */
  lemma PopulateStep(rows: seq<SpeciesRow>, i: nat, taxonomy: seq<TaxonEntry>)
    requires UniqueSpeciesIds(rows) && i < |rows| && !Throws(rows[i], taxonomy)
    ensures var current := PopulatedUpTo(rows, i, taxonomy);
      var row := rows[i];
      var next := if Incomplete(row) && row.commonName.Some? && FirstMatch(taxonomy, row.commonName.value).Some?
        then
          var m := taxonomy[FirstMatch(taxonomy, row.commonName.value).value];
          SetDetails(current, row.id, m.sciName, m.familyComName, m.order, StatusText(m.extinct))
        else current;
      next == PopulatedUpTo(rows, i + 1, taxonomy)
  {
    forall k | 0 <= k < |rows| && k != i ensures rows[k].id != rows[i].id {
    }
  }

  /**
   * `run`: reads all rows, fetches the taxonomy, then updates the rows one by
   * one. A failed fetch (`None`) ends the run before any update. `finished` is
   * false when the run did not reach "All done!": the fetch failed, or the
   * loop ended on a TypeError, in which case rows before that keep their updates.
   */
  method Run(db: BirdDb, response: Option<seq<TaxonEntry>>) returns (finished: bool)
    requires UniqueSpeciesIds(db.species)
    modifies db
    ensures response.None? ==> !finished && db.State() == old(db.State())
    ensures response.Some? ==>
      && (finished <==> StopIndex(old(db.species), response.value) == |old(db.species)|)
      && db.State() == old(db.State()).(species := PopulatePass(old(db.species), response.value))
  {
    var speciesList := db.species;
    if response.None? {
      return false;
    }
    var taxonomy := response.value;
    var i := 0;
    assert PopulatedUpTo(speciesList, 0, taxonomy) == speciesList;
    while i < |speciesList|
      invariant i <= StopIndex(speciesList, taxonomy)
      invariant db.species == PopulatedUpTo(speciesList, i, taxonomy)
      invariant db.links == old(db.links) && db.photos == old(db.photos)
      invariant db.speciesSeq == old(db.speciesSeq) && db.photoSeq == old(db.photoSeq)
    {
      var row := speciesList[i];
      if Incomplete(row) && row.commonName.None? && |taxonomy| > 0 {
        assert PopulatedUpTo(speciesList, i, taxonomy) == PopulatePass(speciesList, taxonomy);
        return false;
      }
      PopulateStep(speciesList, i, taxonomy);
      if Incomplete(row) {
        if row.commonName.Some? {
          var found := FirstMatch(taxonomy, row.commonName.value);
          if found.Some? {
            var m := taxonomy[found.value];
            UpdateSpeciesInDB(db, row.id, m.sciName, m.familyComName, m.order, StatusText(m.extinct));
          }
        }
      }
      i := i + 1;
    }
    assert PopulatedUpTo(speciesList, i, taxonomy) == PopulatePass(speciesList, taxonomy);
    finished := true;
  }

  /**
   * A run changes no id or common name, leaves complete rows, rows with a
   * NULL name or without a match and rows from the first throwing row on alone, and gives a matched incomplete row (before any stop) the
   * scientific name, family, order and status of its first match.
   */
  lemma PopulatePassEffect(rows: seq<SpeciesRow>, taxonomy: seq<TaxonEntry>, k: nat)
    requires k < |rows|
    ensures var r := PopulatePass(rows, taxonomy)[k];
      && r.id == rows[k].id && r.commonName == rows[k].commonName
      && (!Incomplete(rows[k]) ==> r == rows[k])
      && (rows[k].commonName.Some? && FirstMatch(taxonomy, rows[k].commonName.value).None? ==> r == rows[k])
      && (k >= StopIndex(rows, taxonomy) ==> r == rows[k])
      && (rows[k].commonName.None? ==> r == rows[k])
      && (Incomplete(rows[k]) && rows[k].commonName.Some? && k < StopIndex(rows, taxonomy) ==>
            match FirstMatch(taxonomy, rows[k].commonName.value)
            case None => r == rows[k]
            case Some(i) =>
              && r.scientificName == Some(taxonomy[i].sciName)
              && r.family == Some(taxonomy[i].familyComName)
              && r.orderName == Some(taxonomy[i].order)
              && r.status == Some(if taxonomy[i].extinct then "Extinct" else "Not Extinct"))
  {
  }

  /** Populating a row twice is populating it once. */
  lemma PopulatedIdempotent(row: SpeciesRow, taxonomy: seq<TaxonEntry>)
    ensures Populated(Populated(row, taxonomy), taxonomy) == Populated(row, taxonomy)
    ensures Throws(Populated(row, taxonomy), taxonomy) == Throws(row, taxonomy)
  {
  }

  /** A run keeps the database invariant: ids, and so their uniqueness and bounds, are unchanged. */
  lemma PopulatePassPreservesValid(t: Tables, taxonomy: seq<TaxonEntry>)
    requires Valid(t)
    ensures Valid(t.(species := PopulatePass(t.species, taxonomy)))
  {
  }

  /** A second run with the same taxonomy leaves the table as the first run left it. */
  lemma PopulatePassIdempotent(rows: seq<SpeciesRow>, taxonomy: seq<TaxonEntry>)
    ensures PopulatePass(PopulatePass(rows, taxonomy), taxonomy) == PopulatePass(rows, taxonomy)
  {
    var once := PopulatePass(rows, taxonomy);
    var stop := StopIndex(rows, taxonomy);
    forall k | 0 <= k < |rows|
      ensures Throws(once[k], taxonomy) == Throws(rows[k], taxonomy)
      ensures Populated(once[k], taxonomy) == once[k] || k >= stop
    {
      PopulatedIdempotent(rows[k], taxonomy);
    }
    assert StopIndex(once, taxonomy) == stop;
  }
}

/**
 * update_scientific_names.js: every `bird_species` row whose scientific name
 * is NULL or empty gets the `sciName` of the first taxonomy record with the
 * same lower-cased common name, when that name is not empty. The taxonomy
 * response is an input; `None` stands for a failed fetch.
 */
module UpdateScientificNames {
  import opened Wrappers
  import opened Tables
  import opened Taxonomy

  /** `scientific_name IS NULL OR scientific_name = ''` */
  predicate LacksScientificName(row: SpeciesRow) {
    row.scientificName.None? || row.scientificName == Some("")
  }

  /**
   * `getBirdDetails`: the `sciName` of the first case-insensitive match, or
   * null when the fetch failed, nothing matched, or the common name is NULL
   * (its `toLowerCase` throws inside the `try`).
   */
  function GetBirdDetails(commonName: Option<string>, response: Option<seq<TaxonEntry>>): (r: Option<string>)
    ensures r.Some? ==> response.Some? && commonName.Some?
  {
    if response.None? || commonName.None? then None
    else
      match FirstMatch(response.value, commonName.value)
      case None => None
      case Some(i) => Some(response.value[i].sciName)
  }

  /**
   * The answer is the `sciName` of the first record whose lower-cased name
   * equals the lower-cased common name; null means no record matches.
   */
  lemma GetBirdDetailsFirstMatch(commonName: string, taxonomy: seq<TaxonEntry>)
    ensures var r := GetBirdDetails(Some(commonName), Some(taxonomy));
      && (r.Some? ==> exists i :: (0 <= i < |taxonomy|
            && SameName(taxonomy[i], commonName) && r.value == taxonomy[i].sciName
            && forall j :: 0 <= j < i ==> !SameName(taxonomy[j], commonName)))
      && (r.None? ==> forall i :: 0 <= i < |taxonomy| ==> !SameName(taxonomy[i], commonName))
  {
    var r := GetBirdDetails(Some(commonName), Some(taxonomy));
    if r.Some? {
      var i := FirstMatch(taxonomy, commonName).value;
      assert SameName(taxonomy[i], commonName) && r.value == taxonomy[i].sciName;
    }
  }

  /** A failed fetch or a NULL common name gives null. */
  lemma GetBirdDetailsFailures(commonName: Option<string>, response: Option<seq<TaxonEntry>>)
    requires response.None? || commonName.None?
    ensures GetBirdDetails(commonName, response).None?
  {
  }

  /** `SELECT id, common_name FROM bird_species WHERE ...`, keeping table order. */
  function SelectLacking(rows: seq<SpeciesRow>): (r: seq<SpeciesRow>)
    ensures forall x :: x in r <==> x in rows && LacksScientificName(x)
  {
    if rows == [] then []
    else
      var head := if LacksScientificName(rows[0]) then [rows[0]] else [];
      assert rows == [rows[0]] + rows[1..];
      head + SelectLacking(rows[1..])
  }

  /** What the pass makes of one row: only a truthy name is written. */
  function Renamed(row: SpeciesRow, response: Option<seq<TaxonEntry>>): SpeciesRow {
    if !LacksScientificName(row) then row
    else
      match GetBirdDetails(row.commonName, response)
      case Some(name) => if name != "" then row.(scientificName := Some(name)) else row
      case None => row
  }

  /** The table after one run. */
  function ScientificNamePass(rows: seq<SpeciesRow>, response: Option<seq<TaxonEntry>>): (r: seq<SpeciesRow>)
    ensures |r| == |rows|
  {
    seq(|rows|, k requires 0 <= k < |rows| => Renamed(rows[k], response))
  }

  /** `UPDATE bird_species SET scientific_name = ? WHERE id = ?` */
  function SetScientificName(rows: seq<SpeciesRow>, id: int, name: string): (r: seq<SpeciesRow>)
    ensures |r| == |rows|
    ensures forall k :: 0 <= k < |rows| && rows[k].id != id ==> r[k] == rows[k]
    ensures forall k :: 0 <= k < |rows| && rows[k].id == id ==>
      r[k].scientificName == Some(name) && r[k].(scientificName := rows[k].scientificName) == rows[k]
  {
    seq(|rows|, k requires 0 <= k < |rows| =>
      if rows[k].id == id then rows[k].(scientificName := Some(name)) else rows[k])
  }

  /** The `db.run` of that UPDATE. */
  method SetScientificNameInDB(db: BirdDb, id: int, name: string)
    modifies db
    ensures db.State() == old(db.State()).(species := SetScientificName(old(db.species), id, name))
  {
    db.species := SetScientificName(db.species, id, name);
  }

  /** The table once the rows whose ids are in `done` have been handled. */
  ghost function RenamedSoFar(rows: seq<SpeciesRow>, done: set<int>, response: Option<seq<TaxonEntry>>)
    : (r: seq<SpeciesRow>)
    ensures |r| == |rows|
  {
    seq(|rows|, k requires 0 <= k < |rows| => if rows[k].id in done then Renamed(rows[k], response) else rows[k])
  }

  /** Handling one selected row takes the table one row further; ids are unique, so only that row changes. */
  lemma RenameStep(rows: seq<SpeciesRow>, done: set<int>, response: Option<seq<TaxonEntry>>,
                   row: SpeciesRow, name: Option<string>)
    requires UniqueSpeciesIds(rows) && row in rows && LacksScientificName(row)
    requires name == GetBirdDetails(row.commonName, response)
    ensures var current := RenamedSoFar(rows, done, response);
      (if name.Some? && name.value != "" then SetScientificName(current, row.id, name.value) else current)
        == RenamedSoFar(rows, done + {row.id}, response)
  {
    var k' :| 0 <= k' < |rows| && rows[k'] == row;
    forall k | 0 <= k < |rows| && rows[k].id == row.id
      ensures rows[k] == row
    {
      assert k == k';
    }
  }

  /** Once every row lacking a scientific name has been handled, the table is the whole pass. */
  lemma RenamedAll(rows: seq<SpeciesRow>, done: set<int>, response: Option<seq<TaxonEntry>>)
    requires forall j :: 0 <= j < |SelectLacking(rows)| ==> SelectLacking(rows)[j].id in done
    ensures RenamedSoFar(rows, done, response) == ScientificNamePass(rows, response)
  {
    forall k | 0 <= k < |rows| && LacksScientificName(rows[k])
      ensures rows[k].id in done
    {
      assert rows[k] in SelectLacking(rows);
    }
  }

  /** `updateScientificNames`: select the rows, then look each one up and update it. */
  method UpdateScientificNames(db: BirdDb, response: Option<seq<TaxonEntry>>)
    requires UniqueSpeciesIds(db.species)
    modifies db
    ensures db.State() == old(db.State()).(species := ScientificNamePass(old(db.species), response))
  {
    var snapshot := db.species;
    var rows := SelectLacking(snapshot);
    ghost var done: set<int> := {};
    assert RenamedSoFar(snapshot, done, response) == snapshot;
    for i := 0 to |rows|
      invariant forall j :: 0 <= j < i ==> rows[j].id in done
      invariant db.State() == old(db.State()).(species := RenamedSoFar(snapshot, done, response))
    {
      var row := rows[i];
      var scientificName := GetBirdDetails(row.commonName, response);
      RenameStep(snapshot, done, response, row, scientificName);
      if scientificName.Some? && scientificName.value != "" {
        SetScientificNameInDB(db, row.id, scientificName.value);
      }
      ghost var before := done;
      done := done + {row.id};
      assert forall j :: 0 <= j < i ==> rows[j].id in before;
    }
    RenamedAll(snapshot, done, response);
  }

  /**
   * Only the scientific name of a row may change, and only when it was NULL
   * or empty and the lookup returned a non-empty name, which it then holds.
   */
  lemma ScientificNamePassEffect(rows: seq<SpeciesRow>, response: Option<seq<TaxonEntry>>, k: nat)
    requires k < |rows|
    ensures var r := ScientificNamePass(rows, response)[k];
      && r.(scientificName := rows[k].scientificName) == rows[k]
      && (r != rows[k] <==>
            LacksScientificName(rows[k])
            && GetBirdDetails(rows[k].commonName, response).Some?
            && GetBirdDetails(rows[k].commonName, response).value != "")
      && (r != rows[k] ==> r.scientificName == GetBirdDetails(rows[k].commonName, response))
  {
  }

  /** A run keeps the database invariant: ids are unchanged. */
  lemma ScientificNamePassPreservesValid(t: Tables, response: Option<seq<TaxonEntry>>)
    requires Valid(t)
    ensures Valid(t.(species := ScientificNamePass(t.species, response)))
  {
  }

  /** A second run with the same taxonomy changes nothing: updated rows are no longer selected. */
  lemma ScientificNamePassIdempotent(rows: seq<SpeciesRow>, response: Option<seq<TaxonEntry>>)
    ensures ScientificNamePass(ScientificNamePass(rows, response), response) == ScientificNamePass(rows, response)
  {
  }

  /** The match ignores case: a lower-case species name finds the capitalised record. */
  lemma DetailsIgnoreCase()
    ensures GetBirdDetails(Some("emu"),
      Some([TaxonEntry("Emu", "Dromaius novaehollandiae", "Cassowaries and Emu", "Casuariiformes", false)]))
      == Some("Dromaius novaehollandiae")
  {
    assert Ascii.Lower("Emu") == "emu";
    assert Ascii.Lower("emu") == "emu";
  }
}

/**
 * The SQLite database `birds.db` as in-memory state: the `bird_species`
 * table, the `bird_photo_species` link table and the `bird_photos` table,
 * plus the AUTOINCREMENT counters (`sqlite_sequence`) that hand out fresh
 * row ids. Tables are sequences of rows in rowid order; a nullable column is
 * an `Option`.
 */
module Tables {
  import opened Wrappers

  /** A `bird_species` row. `common_name` has no NOT NULL or UNIQUE constraint. */
  datatype SpeciesRow = SpeciesRow(
    id: int,
    commonName: Option<string>,
    scientificName: Option<string>,
    family: Option<string>,
    orderName: Option<string>,
    status: Option<string>)

  /** A `bird_photos` row; latitude and longitude are stored as given. */
  datatype PhotoRow = PhotoRow(
    id: int,
    imageFilename: Option<string>,
    dateTaken: Option<string>,
    location: Option<string>,
    latitude: Option<real>,
    longitude: Option<real>)

  /** A `bird_photo_species` row. Pairs are taken to be unique, so the table is a set. */
  datatype Link = Link(photoId: int, speciesId: int)

  /** The abstract value of the whole database. */
  datatype Tables = Tables(
    species: seq<SpeciesRow>,
    links: set<Link>,
    photos: seq<PhotoRow>,
    speciesSeq: int,
    photoSeq: int)

  /** Primary keys are unique. */
  predicate UniqueSpeciesIds(rows: seq<SpeciesRow>) {
    forall i, j :: 0 <= i < j < |rows| ==> rows[i].id != rows[j].id
  }

  predicate UniquePhotoIds(rows: seq<PhotoRow>) {
    forall i, j :: 0 <= i < j < |rows| ==> rows[i].id != rows[j].id
  }

  /** Rows in rowid order: AUTOINCREMENT ids ascend along the table. */
  predicate AscendingSpeciesIds(rows: seq<SpeciesRow>) {
    forall i, j :: 0 <= i < j < |rows| ==> rows[i].id < rows[j].id
  }

  predicate AscendingPhotoIds(rows: seq<PhotoRow>) {
    forall i, j :: 0 <= i < j < |rows| ==> rows[i].id < rows[j].id
  }

  /**
   * The database invariant: ids are unique, ascend in table order and are no
   * larger than the AUTOINCREMENT counter of their table, and every link
   * refers to a species id that the counter has already handed out.
   */
  predicate Valid(t: Tables) {
    && UniqueSpeciesIds(t.species)
    && UniquePhotoIds(t.photos)
    && AscendingSpeciesIds(t.species)
    && AscendingPhotoIds(t.photos)
    && (forall i :: 0 <= i < |t.species| ==> t.species[i].id <= t.speciesSeq)
    && (forall i :: 0 <= i < |t.photos| ==> t.photos[i].id <= t.photoSeq)
    && (forall l :: l in t.links ==> l.speciesId <= t.speciesSeq)
  }

  /** The database a connection (`db` in the JavaScript, `conn` in the Python) works on. */
  class BirdDb {
    var species: seq<SpeciesRow>
    var links: set<Link>
    var photos: seq<PhotoRow>
    var speciesSeq: int
    var photoSeq: int

    function State(): Tables
      reads this
    {
      Tables(species, links, photos, speciesSeq, photoSeq)
    }

    constructor (t: Tables)
      ensures State() == t
    {
      species, links, photos := t.species, t.links, t.photos;
      speciesSeq, photoSeq := t.speciesSeq, t.photoSeq;
    }
  }

  /**
   * `SELECT id FROM bird_species WHERE common_name = ?` through `db.get`: the
   * index of the first row, in table order, whose name equals `name` exactly
   * (case-sensitive; a NULL name never matches). The answer's id is that row's id.
   */
  function FindSpeciesByName(rows: seq<SpeciesRow>, name: string): (r: Option<nat>)
    ensures r.None? ==> forall i :: 0 <= i < |rows| ==> rows[i].commonName != Some(name)
    ensures r.Some? ==> r.value < |rows| && rows[r.value].commonName == Some(name)
    ensures r.Some? ==> forall j :: 0 <= j < r.value ==> rows[j].commonName != Some(name)
  {
    if rows == [] then None
    else if rows[0].commonName == Some(name) then Some(0)
    else
      match FindSpeciesByName(rows[1..], name)
      case None => None
      case Some(i) => Some(i + 1)
  }

  /** Adding a row behind the others changes no answer that was already found. */
  lemma {:induction false} FindSpeciesByNameAppend(rows: seq<SpeciesRow>, row: SpeciesRow, name: string)
    ensures FindSpeciesByName(rows + [row], name) ==
      if FindSpeciesByName(rows, name).Some? then FindSpeciesByName(rows, name)
      else if row.commonName == Some(name) then Some(|rows|)
      else None
  {
    if rows != [] {
      assert (rows + [row])[1..] == rows[1..] + [row];
      FindSpeciesByNameAppend(rows[1..], row, name);
    }
  }
}

/**
 * The write handlers of server.js: `POST /api/update-species`,
 * `POST /api/remove-species` and `POST /api/update-location`. Each request is
 * one atomic step on the database; a failing `db.run` (HTTP 500) is not
 * modelled. Request fields that JavaScript finds falsy (absent, `0`, `""`)
 * are missing.
 */
module Server {
  import opened Wrappers
  import opened Tables

  /** The success messages, in the order the handlers send them. */
  datatype Message =
    | SpeciesAdded                   // "Species added successfully!"
    | NewSpeciesLinked(name: string) // "New species '<name>' added and linked successfully!"
    | SpeciesRemoved                 // "Species removed successfully!"
    | LocationUpdated                // "Location updated successfully!"

  /** The HTTP 400 errors. */
  datatype Failure =
    | MissingFields     // "Missing required fields"
    | SpeciesNotFound   // "Species not found"

  datatype Reply = Ok(message: Message) | BadRequest(error: Failure)

  /** `!photo_id` is false. */
  predicate IdGiven(x: Option<int>) {
    x.Some? && x.value != 0
  }

  /** `!common_name` / `!location` is false. */
  predicate TextGiven(x: Option<string>) {
    x.Some? && x.value != ""
  }

  /** `INSERT INTO bird_species (common_name) VALUES (?)`: every other column NULL. */
  function NewSpeciesRow(id: int, name: string): SpeciesRow {
    SpeciesRow(id, Some(name), None, None, None, None)
  }

  /**
   * update-species: look the name up; if a row has it, `INSERT OR IGNORE` the
   * link; otherwise insert a species row (its id is `lastID`, one past the
   * AUTOINCREMENT counter) and link that.
   */
  function UpdateSpeciesStep(t: Tables, photoId: Option<int>, commonName: Option<string>): (Tables, Reply) {
    if !IdGiven(photoId) || !TextGiven(commonName) then (t, BadRequest(MissingFields))
    else
      var name := commonName.value;
      match FindSpeciesByName(t.species, name)
      case Some(i) =>
        (t.(links := t.links + {Link(photoId.value, t.species[i].id)}), Ok(SpeciesAdded))
      case None =>
        var newId := t.speciesSeq + 1;
        (t.(species := t.species + [NewSpeciesRow(newId, name)],
            speciesSeq := newId,
            links := t.links + {Link(photoId.value, newId)}),
         Ok(NewSpeciesLinked(name)))
  }

  /**
   * remove-species: an unknown name is a 400; otherwise the one pair is
   * deleted, whether it was there or not.
   */
  function RemoveSpeciesStep(t: Tables, photoId: Option<int>, commonName: Option<string>): (Tables, Reply) {
    if !IdGiven(photoId) || !TextGiven(commonName) then (t, BadRequest(MissingFields))
    else
      match FindSpeciesByName(t.species, commonName.value)
      case None => (t, BadRequest(SpeciesNotFound))
      case Some(i) =>
        (t.(links := t.links - {Link(photoId.value, t.species[i].id)}), Ok(SpeciesRemoved))
  }

  /** `UPDATE bird_photos SET location = ? WHERE id = ?` */
  function SetLocation(rows: seq<PhotoRow>, id: int, location: string): (r: seq<PhotoRow>)
    ensures |r| == |rows|
  {
    seq(|rows|, k requires 0 <= k < |rows| =>
      if rows[k].id == id then rows[k].(location := Some(location)) else rows[k])
  }

  /** update-location: succeeds whether or not a row has that id. */
  function UpdateLocationStep(t: Tables, photoId: Option<int>, location: Option<string>): (Tables, Reply) {
    if !IdGiven(photoId) || !TextGiven(location) then (t, BadRequest(MissingFields))
    else (t.(photos := SetLocation(t.photos, photoId.value, location.value)), Ok(LocationUpdated))
  }

  method UpdateSpecies(db: BirdDb, photoId: Option<int>, commonName: Option<string>) returns (reply: Reply)
    requires Valid(db.State())
    modifies db
    ensures Valid(db.State())
    ensures (db.State(), reply) == UpdateSpeciesStep(old(db.State()), photoId, commonName)
  {
    UpdateSpeciesPreservesValid(db.State(), photoId, commonName);
    if !IdGiven(photoId) || !TextGiven(commonName) {
      return BadRequest(MissingFields);
    }
    var found := FindSpeciesByName(db.species, commonName.value);
    if found.Some? {
      db.links := db.links + {Link(photoId.value, db.species[found.value].id)};
      reply := Ok(SpeciesAdded);
    } else {
      var newId := db.speciesSeq + 1;
      db.species := db.species + [NewSpeciesRow(newId, commonName.value)];
      db.speciesSeq := newId;
      db.links := db.links + {Link(photoId.value, newId)};
      reply := Ok(NewSpeciesLinked(commonName.value));
    }
  }

  method RemoveSpecies(db: BirdDb, photoId: Option<int>, commonName: Option<string>) returns (reply: Reply)
    modifies db
    ensures (db.State(), reply) == RemoveSpeciesStep(old(db.State()), photoId, commonName)
  {
    if !IdGiven(photoId) || !TextGiven(commonName) {
      return BadRequest(MissingFields);
    }
    var found := FindSpeciesByName(db.species, commonName.value);
    if found.None? {
      return BadRequest(SpeciesNotFound);
    }
    db.links := db.links - {Link(photoId.value, db.species[found.value].id)};
    reply := Ok(SpeciesRemoved);
  }

  method UpdateLocation(db: BirdDb, photoId: Option<int>, location: Option<string>) returns (reply: Reply)
    modifies db
    ensures (db.State(), reply) == UpdateLocationStep(old(db.State()), photoId, location)
  {
    if !IdGiven(photoId) || !TextGiven(location) {
      return BadRequest(MissingFields);
    }
    db.photos := SetLocation(db.photos, photoId.value, location.value);
    reply := Ok(LocationUpdated);
  }

  /** A request missing a required field is a 400 and changes nothing, in all three handlers. */
  lemma MissingFieldsChangeNothing(t: Tables, photoId: Option<int>, text: Option<string>)
    requires !IdGiven(photoId) || !TextGiven(text)
    ensures UpdateSpeciesStep(t, photoId, text) == (t, BadRequest(MissingFields))
    ensures RemoveSpeciesStep(t, photoId, text) == (t, BadRequest(MissingFields))
    ensures UpdateLocationStep(t, photoId, text) == (t, BadRequest(MissingFields))
  {
  }

  /** update-species keeps the database invariant: the new species id is fresh. */
  lemma UpdateSpeciesPreservesValid(t: Tables, photoId: Option<int>, commonName: Option<string>)
    requires Valid(t)
    ensures Valid(UpdateSpeciesStep(t, photoId, commonName).0)
  {
    var t' := UpdateSpeciesStep(t, photoId, commonName).0;
    if IdGiven(photoId) && TextGiven(commonName) && FindSpeciesByName(t.species, commonName.value).None? {
      assert t'.species == t.species + [NewSpeciesRow(t.speciesSeq + 1, commonName.value)];
      forall i, j | 0 <= i < j < |t'.species| ensures t'.species[i].id < t'.species[j].id {
        assert t'.species[i] == t.species[i];
        if j < |t.species| {
          assert t'.species[j] == t.species[j];
        }
      }
    }
  }

  /**
   * After update-species the name resolves to a species row that is linked to
   * the photo; the species table is the old one with at most one row
   * appended; photos are untouched and exactly one pair may join the links.
   */
  lemma UpdateSpeciesLinksName(t: Tables, photoId: int, name: string)
    requires photoId != 0 && name != ""
    ensures var (t', reply) := UpdateSpeciesStep(t, Some(photoId), Some(name));
      && reply.Ok?
      && FindSpeciesByName(t'.species, name).Some?
      && t'.links == t.links + {Link(photoId, t'.species[FindSpeciesByName(t'.species, name).value].id)}
      && t'.species[..|t.species|] == t.species
      && |t.species| <= |t'.species| <= |t.species| + 1
      && t'.photos == t.photos && t'.photoSeq == t.photoSeq
  {
    var t' := UpdateSpeciesStep(t, Some(photoId), Some(name)).0;
    if FindSpeciesByName(t.species, name).None? {
      FindSpeciesByNameAppend(t.species, NewSpeciesRow(t.speciesSeq + 1, name), name);
      assert t'.species[..|t.species|] == t.species;
    }
  }

  /**
   * For a name a row already has, update-species reuses the first such row:
   * the species table and its counter stay as they were, and the photo is
   * linked to that row's id.
   */
  lemma UpdateSpeciesKnownName(t: Tables, photoId: int, name: string)
    requires photoId != 0 && name != ""
    requires FindSpeciesByName(t.species, name).Some?
    ensures var (t', reply) := UpdateSpeciesStep(t, Some(photoId), Some(name));
      && reply == Ok(SpeciesAdded)
      && t'.species == t.species && t'.speciesSeq == t.speciesSeq
      && t'.photos == t.photos && t'.photoSeq == t.photoSeq
      && t'.links == t.links + {Link(photoId, t.species[FindSpeciesByName(t.species, name).value].id)}
  {
  }

  /**
   * For a name no row has, update-species appends exactly one row, with a
   * fresh id and that name, and adds exactly one new link.
   */
  lemma UpdateSpeciesNewName(t: Tables, photoId: int, name: string)
    requires Valid(t) && photoId != 0 && name != ""
    requires FindSpeciesByName(t.species, name).None?
    ensures var (t', reply) := UpdateSpeciesStep(t, Some(photoId), Some(name));
      var newId := t'.species[|t.species|].id;
      && reply == Ok(NewSpeciesLinked(name))
      && t'.species == t.species + [SpeciesRow(newId, Some(name), None, None, None, None)]
      && (forall i :: 0 <= i < |t.species| ==> t.species[i].id != newId)
      && Link(photoId, newId) !in t.links
      && t'.links == t.links + {Link(photoId, newId)}
      && t'.speciesSeq == newId && newId == t.speciesSeq + 1
      && t'.photos == t.photos && t'.photoSeq == t.photoSeq
  {
  }

  /** Repeating update-species with the same fields changes nothing more. */
  lemma UpdateSpeciesIdempotent(t: Tables, photoId: Option<int>, commonName: Option<string>)
    ensures var t' := UpdateSpeciesStep(t, photoId, commonName).0;
      UpdateSpeciesStep(t', photoId, commonName).0 == t'
  {
    if IdGiven(photoId) && TextGiven(commonName) {
      UpdateSpeciesLinksName(t, photoId.value, commonName.value);
    }
  }

  /** The lookup is case-sensitive: "egret" is a new species next to "Egret". */
  lemma UpdateSpeciesIsCaseSensitive()
    ensures var t := Tables([NewSpeciesRow(1, "Egret")], {}, [], 1, 0);
      var (t', reply) := UpdateSpeciesStep(t, Some(7), Some("egret"));
      && reply == Ok(NewSpeciesLinked("egret"))
      && t'.species == [NewSpeciesRow(1, "Egret"), NewSpeciesRow(2, "egret")]
      && t'.links == {Link(7, 2)}
  {
    var t := Tables([NewSpeciesRow(1, "Egret")], {}, [], 1, 0);
    assert FindSpeciesByName(t.species[1..], "egret") == None;
  }

  /**
   * remove-species never touches the species or photo tables; for a known
   * name it removes exactly the one pair and reports success even when the
   * pair was not there; an unknown name is a 400 with no change.
   */
  lemma RemoveSpeciesEffect(t: Tables, photoId: int, name: string)
    requires photoId != 0 && name != ""
    ensures var (t', reply) := RemoveSpeciesStep(t, Some(photoId), Some(name));
      && t'.species == t.species && t'.photos == t.photos
      && t'.speciesSeq == t.speciesSeq && t'.photoSeq == t.photoSeq
      && (FindSpeciesByName(t.species, name).None? ==> reply == BadRequest(SpeciesNotFound) && t' == t)
      && (FindSpeciesByName(t.species, name).Some? ==>
            var id := t.species[FindSpeciesByName(t.species, name).value].id;
            reply == Ok(SpeciesRemoved) && t'.links == t.links - {Link(photoId, id)})
  {
  }

  /** remove-species keeps the database invariant: it only removes a link. */
  lemma RemoveSpeciesPreservesValid(t: Tables, photoId: Option<int>, commonName: Option<string>)
    requires Valid(t)
    ensures Valid(RemoveSpeciesStep(t, photoId, commonName).0)
  {
  }

  /**
   * remove-species undoes the link that update-species made, unless that pair
   * was already there: the link set is back to what it was.
   */
  lemma RemoveUndoesUpdate(t: Tables, photoId: int, name: string)
    requires Valid(t) && photoId != 0 && name != ""
    requires FindSpeciesByName(t.species, name).Some? ==>
      Link(photoId, t.species[FindSpeciesByName(t.species, name).value].id) !in t.links
    ensures var t' := UpdateSpeciesStep(t, Some(photoId), Some(name)).0;
      var (t'', reply) := RemoveSpeciesStep(t', Some(photoId), Some(name));
      && reply == Ok(SpeciesRemoved)
      && t''.links == t.links
      && t''.species == t'.species
  {
    UpdateSpeciesLinksName(t, photoId, name);
    var t' := UpdateSpeciesStep(t, Some(photoId), Some(name)).0;
    if FindSpeciesByName(t.species, name).None? {
      FindSpeciesByNameAppend(t.species, NewSpeciesRow(t.speciesSeq + 1, name), name);
      assert Link(photoId, t.speciesSeq + 1) !in t.links;
    }
  }

  /**
   * update-location sets `location` on the rows with that id and changes no
   * other row or column and no other table; it succeeds even if no row has
   * the id. Ids are unique, so at most one row changes.
   */
  lemma UpdateLocationEffect(t: Tables, photoId: int, location: string)
    requires Valid(t) && photoId != 0 && location != ""
    ensures var (t', reply) := UpdateLocationStep(t, Some(photoId), Some(location));
      && reply == Ok(LocationUpdated)
      && t'.species == t.species && t'.links == t.links && |t'.photos| == |t.photos|
      && t'.speciesSeq == t.speciesSeq && t'.photoSeq == t.photoSeq
      && (forall k :: 0 <= k < |t.photos| ==>
            t'.photos[k].(location := t.photos[k].location) == t.photos[k]
            && (t'.photos[k] != t.photos[k] ==> t.photos[k].id == photoId)
            && (t.photos[k].id == photoId ==> t'.photos[k].location == Some(location)))
      && (forall j, k :: 0 <= j < k < |t.photos| ==> t'.photos[j] == t.photos[j] || t'.photos[k] == t.photos[k])
  {
  }

  /** update-location keeps the database invariant: no id changes. */
  lemma UpdateLocationPreservesValid(t: Tables, photoId: Option<int>, location: Option<string>)
    requires Valid(t)
    ensures Valid(UpdateLocationStep(t, photoId, location).0)
  {
  }

  /** Setting the same location twice is setting it once. */
  lemma UpdateLocationIdempotent(t: Tables, photoId: Option<int>, location: Option<string>)
    ensures var t' := UpdateLocationStep(t, photoId, location).0;
      UpdateLocationStep(t', photoId, location).0 == t'
  {
    if IdGiven(photoId) && TextGiven(location) {
      var t' := UpdateLocationStep(t, photoId, location).0;
      assert SetLocation(t'.photos, photoId.value, location.value) == t'.photos;
    }
  }
}

/**
 * process_images.py: bring the `bird_photos` table in line with the image
 * folder. `sync_database_with_folder` deletes the rows whose filename is not
 * an image of the folder; `insert_new_images` adds a row for every image not
 * yet stored. The folder listing (`os.listdir`) and what `extract_metadata`
 * reads from each file are inputs; a missing folder is `None`.
 */
module ProcessImages {
  import opened Wrappers
  import opened Ascii
  import opened Tables
  import opened ExifDate

  /** `file.lower().endswith(('.jpg', '.jpeg', '.png'))` */
  predicate IsImageFile(name: string) {
    var lower := Lower(name);
    EndsWith(lower, ".jpg") || EndsWith(lower, ".jpeg") || EndsWith(lower, ".png")
  }

  /** Any name ending in one of the three extensions, in any mix of cases, passes the filter. */
  lemma ImageFilterAccepts(base: string, ext: string)
    requires Lower(ext) == ".jpg" || Lower(ext) == ".jpeg" || Lower(ext) == ".png"
    ensures IsImageFile(base + ext)
  {
    var lower := Lower(base + ext);
    assert lower[|base|..] == Lower(ext) by {
      forall i | 0 <= i < |ext| ensures lower[|base|..][i] == Lower(ext)[i] {
        assert (base + ext)[|base| + i] == ext[i];
      }
    }
    assert lower[|lower| - |Lower(ext)|..] == Lower(ext);
  }

  /** A name whose last character is not a `g` of either case never passes. */
  lemma ImageFilterRejects(name: string)
    requires name == [] || (name[|name| - 1] != 'g' && name[|name| - 1] != 'G')
    ensures !IsImageFile(name)
  {
    if name != [] {
      var lower := Lower(name);
      assert lower[|lower| - 1] != 'g';
    }
  }

  /** The key a file is stored under. */
  function ImageKey(name: string): string {
    "/images/" + name
  }

  /** `folder_images`: the keys of the image files of the listing. */
  function FolderImages(listing: seq<string>): set<string> {
    set f | f in listing && IsImageFile(f) :: ImageKey(f)
  }

  /** The non-NULL `image_filename` values of the table. */
  function StoredNames(rows: seq<PhotoRow>): set<string> {
    set r | r in rows && r.imageFilename.Some? :: r.imageFilename.value
  }

  /** `stored_images`: every `image_filename`, NULL among them when some row has one. */
  function StoredImages(rows: seq<PhotoRow>): set<Option<string>> {
    set r | r in rows :: r.imageFilename
  }

  /** The rows whose filename is NULL or not in `gone`, in table order. */
  function WithoutNames(rows: seq<PhotoRow>, gone: set<string>): (r: seq<PhotoRow>)
    ensures |r| <= |rows|
    ensures forall x :: x in r <==> x in rows && (x.imageFilename.None? || x.imageFilename.value !in gone)
  {
    if rows == [] then []
    else
      var head := if rows[0].imageFilename.None? || rows[0].imageFilename.value !in gone then [rows[0]] else [];
      assert rows == [rows[0]] + rows[1..];
      head + WithoutNames(rows[1..], gone)
  }

  /** `DELETE FROM bird_photos WHERE image_filename = ?`: with NULL, `=` matches no row. */
  function DeleteByFilename(rows: seq<PhotoRow>, name: Option<string>): seq<PhotoRow> {
    if name.None? then rows else WithoutNames(rows, {name.value})
  }

  /** The table after `sync_database_with_folder`: the rows of `stored_images - folder_images` are gone. */
  function Synced(rows: seq<PhotoRow>, folder: set<string>): seq<PhotoRow> {
    WithoutNames(rows, StoredNames(rows) - folder)
  }

  lemma {:induction false} WithoutNamesTwice(rows: seq<PhotoRow>, gone: set<string>, more: set<string>)
    ensures WithoutNames(WithoutNames(rows, gone), more) == WithoutNames(rows, gone + more)
  {
    if rows != [] {
      WithoutNamesTwice(rows[1..], gone, more);
      var once := WithoutNames(rows, gone);
      if rows[0].imageFilename.None? || rows[0].imageFilename.value !in gone {
        assert once == [rows[0]] + WithoutNames(rows[1..], gone);
        assert once[1..] == WithoutNames(rows[1..], gone);
      } else {
        assert once == WithoutNames(rows[1..], gone);
      }
    }
  }

  lemma {:induction false} WithoutNoNames(rows: seq<PhotoRow>)
    ensures WithoutNames(rows, {}) == rows
  {
    if rows != [] {
      WithoutNoNames(rows[1..]);
      assert rows == [rows[0]] + rows[1..];
    }
  }

  /** The filenames among a set of `image_filename` values, NULL left aside. */
  ghost function NamesOf(images: set<Option<string>>): set<string> {
    set m | m in images && m.Some? :: m.value
  }

  lemma NamesOfMissing(rows: seq<PhotoRow>, folder: set<string>)
    ensures NamesOf(StoredImages(rows) - set f | f in folder :: Some(f)) == StoredNames(rows) - folder
  {
    forall x | x in StoredNames(rows) - folder
      ensures Some(x) in StoredImages(rows) - set f | f in folder :: Some(f)
    {
      var r :| r in rows && r.imageFilename == Some(x);
    }
  }

  lemma NamesOfRemove(images: set<Option<string>>, m: Option<string>)
    requires m in images
    ensures NamesOf(images) == NamesOf(images - {m}) + (if m.Some? then {m.value} else {})
  {
  }

  /** One delete of the loop, in terms of the names deleted so far and the values still to go. */
  lemma DeleteStep(rows: seq<PhotoRow>, deleted: set<string>, images: set<Option<string>>, m: Option<string>)
    requires m in images
    ensures DeleteByFilename(WithoutNames(rows, deleted), m) == WithoutNames(rows, deleted + NamesOf({m}))
    ensures deleted + NamesOf(images) == (deleted + NamesOf({m})) + NamesOf(images - {m})
  {
    NamesOfRemove(images, m);
    if m.Some? {
      WithoutNamesTwice(rows, deleted, {m.value});
      assert NamesOf({m}) == {m.value};
    } else {
      assert NamesOf({m}) == {};
      assert deleted + {} == deleted;
    }
  }

  method SyncDatabaseWithFolder(db: BirdDb, listing: seq<string>)
    modifies db
    ensures db.State() == old(db.State()).(photos := Synced(old(db.photos), FolderImages(listing)))
  {
    var storedImages := StoredImages(db.photos);
    var folderImages := FolderImages(listing);
    var missingImages := storedImages - set f | f in folderImages :: Some(f);
    NamesOfMissing(db.photos, folderImages);
    ghost var deleted: set<string> := {};
    WithoutNoNames(db.photos);
    while missingImages != {}
      invariant db.photos == WithoutNames(old(db.photos), deleted)
      invariant db.species == old(db.species) && db.links == old(db.links)
      invariant db.speciesSeq == old(db.speciesSeq) && db.photoSeq == old(db.photoSeq)
      invariant StoredNames(old(db.photos)) - folderImages == deleted + NamesOf(missingImages)
      decreases missingImages
    {
      var missing :| missing in missingImages;
      DeleteStep(old(db.photos), deleted, missingImages, missing);
      db.photos := DeleteByFilename(db.photos, missing);
      deleted := deleted + NamesOf({missing});
      missingImages := missingImages - {missing};
    }
    assert NamesOf(missingImages) == {};
    assert deleted == StoredNames(old(db.photos)) - folderImages;
  }

  /** What `extract_metadata` reads from one file: the EXIF date tag, the GPS position, the geocoded city. */
  datatype ExifInfo = ExifInfo(rawDate: Option<string>, gps: Option<(real, real)>, city: string)

  /** The row inserted for a new image; the location is "Unknown" without a GPS position. */
  function NewPhotoRow(id: int, key: string, info: ExifInfo): (r: PhotoRow)
    ensures r.id == id && r.imageFilename == Some(key)
    ensures info.rawDate.None? ==> r.dateTaken.None?
    ensures r.dateTaken.Some? ==> exists dt :: IsValid(dt) && r.dateTaken.value == Layout(dt, '-')
    ensures info.gps.None? ==> r.location == Some("Unknown") && r.latitude.None? && r.longitude.None?
  {
    PhotoRow(id, Some(key), ConvertDate(info.rawDate),
             Some(if info.gps.Some? then info.city else "Unknown"),
             if info.gps.Some? then Some(info.gps.value.0) else None,
             if info.gps.Some? then Some(info.gps.value.1) else None)
  }

  /** One iteration of `insert_new_images`, on the table and the AUTOINCREMENT counter. */
  function InsertOne(rows: seq<PhotoRow>, counter: int, filename: string, extract: string -> ExifInfo)
    : (seq<PhotoRow>, int)
  {
    if IsImageFile(filename) && ImageKey(filename) !in StoredNames(rows)
    then (rows + [NewPhotoRow(counter + 1, ImageKey(filename), extract(filename))], counter + 1)
    else (rows, counter)
  }

  /** The table and counter after `insert_new_images` has gone through the listing in order. */
  function InsertPass(rows: seq<PhotoRow>, counter: int, listing: seq<string>, extract: string -> ExifInfo)
    : (seq<PhotoRow>, int)
    decreases |listing|
  {
    if listing == [] then (rows, counter)
    else
      var (rows', counter') := InsertOne(rows, counter, listing[0], extract);
      InsertPass(rows', counter', listing[1..], extract)
  }

  method InsertNewImages(db: BirdDb, listing: seq<string>, extract: string -> ExifInfo)
    modifies db
    ensures db.State() == old(db.State()).(photos := InsertPass(old(db.photos), old(db.photoSeq), listing, extract).0,
                                           photoSeq := InsertPass(old(db.photos), old(db.photoSeq), listing, extract).1)
  {
    for i := 0 to |listing|
      invariant InsertPass(db.photos, db.photoSeq, listing[i..], extract)
        == InsertPass(old(db.photos), old(db.photoSeq), listing, extract)
      invariant db.State() == old(db.State()).(photos := db.photos, photoSeq := db.photoSeq)
    {
      var filename := listing[i];
      assert listing[i..][1..] == listing[i + 1..];
      if IsImageFile(filename) {
        var imageFilename := ImageKey(filename);
        var stored := imageFilename in StoredNames(db.photos);
        if !stored {
          var info := extract(filename);
          db.photoSeq := db.photoSeq + 1;
          db.photos := db.photos + [NewPhotoRow(db.photoSeq, imageFilename, info)];
        }
      }
    }
  }

  /** `process_images`: nothing happens when the folder does not exist. */
  method ProcessImages(db: BirdDb, folder: Option<seq<string>>, extract: string -> ExifInfo)
    modifies db
    ensures folder.None? ==> db.State() == old(db.State())
    ensures folder.Some? ==>
      var (photos, counter) := InsertPass(Synced(old(db.photos), FolderImages(folder.value)),
                                          old(db.photoSeq), folder.value, extract);
      db.State() == old(db.State()).(photos := photos, photoSeq := counter)
  {
    if folder.None? {
      return;
    }
    SyncDatabaseWithFolder(db, folder.value);
    InsertNewImages(db, folder.value, extract);
  }

  /**
   * sync keeps exactly the rows whose filename is NULL (`= NULL` deletes
   * nothing) or names an image of the folder, in table order; every row of a
   * missing filename goes, duplicates included.
   */
  lemma SyncedRows(rows: seq<PhotoRow>, listing: seq<string>, x: PhotoRow)
    ensures x in Synced(rows, FolderImages(listing)) <==>
      x in rows && (x.imageFilename.None? || x.imageFilename.value in FolderImages(listing))
  {
  }

  lemma FolderImagesCons(listing: seq<string>)
    requires listing != []
    ensures FolderImages(listing)
      == (if IsImageFile(listing[0]) then {ImageKey(listing[0])} else {}) + FolderImages(listing[1..])
  {
    FolderImagesTail(listing);
    var head: set<string> := if IsImageFile(listing[0]) then {ImageKey(listing[0])} else {};
    forall x | x in FolderImages(listing) ensures x in head + FolderImages(listing[1..]) {
      var f :| f in listing && IsImageFile(f) && x == ImageKey(f);
      var k :| 0 <= k < |listing| && listing[k] == f;
      if k > 0 {
        assert listing[1..][k - 1] == f;
      }
    }
  }

  lemma StoredNamesAppend(rows: seq<PhotoRow>, row: PhotoRow)
    ensures StoredNames(rows + [row]) == StoredNames(rows) + (if row.imageFilename.Some? then {row.imageFilename.value} else {})
  {
    assert forall r :: r in rows + [row] <==> r in rows || r == row;
  }

  /** One iteration either leaves table and counter alone or appends one fresh row for an unstored image. */
  lemma InsertOneEffect(rows: seq<PhotoRow>, counter: int, filename: string, extract: string -> ExifInfo)
    ensures var (rows', counter') := InsertOne(rows, counter, filename, extract);
      && StoredNames(rows') == StoredNames(rows) + (if IsImageFile(filename) then {ImageKey(filename)} else {})
      && ((rows' == rows && counter' == counter)
          || (&& rows' == rows + [rows'[|rows|]] && counter' == counter + 1
              && rows'[|rows|].id == counter + 1
              && rows'[|rows|].imageFilename == Some(ImageKey(filename))
              && rows'[|rows|] == NewPhotoRow(counter + 1, ImageKey(filename), extract(filename))
              && IsImageFile(filename) && ImageKey(filename) !in StoredNames(rows)))
  {
    var (rows', counter') := InsertOne(rows, counter, filename, extract);
    if rows' != rows {
      StoredNamesAppend(rows, rows'[|rows|]);
      assert rows' == rows + [rows'[|rows|]];
    }
  }

  /** insert only appends, with consecutive ids from the counter on. */
  lemma {:induction false} InsertPassShape(rows: seq<PhotoRow>, counter: int, listing: seq<string>,
                                           extract: string -> ExifInfo)
    ensures var (rows', counter') := InsertPass(rows, counter, listing, extract);
      && |rows| <= |rows'| && rows'[..|rows|] == rows
      && counter' == counter + (|rows'| - |rows|)
      && forall k :: |rows| <= k < |rows'| ==> rows'[k].id == counter + 1 + (k - |rows|)
    decreases |listing|
  {
    if listing != [] {
      var (mid, midCounter) := InsertOne(rows, counter, listing[0], extract);
      InsertOneEffect(rows, counter, listing[0], extract);
      InsertPassShape(mid, midCounter, listing[1..], extract);
      var rows' := InsertPass(mid, midCounter, listing[1..], extract).0;
      assert rows' == InsertPass(rows, counter, listing, extract).0;
      assert rows'[..|mid|][..|rows|] == rows;
      forall k | |rows| <= k < |rows'| ensures rows'[k].id == counter + 1 + (k - |rows|) {
        if mid != rows && k == |rows| {
          assert rows'[|rows|] == rows'[..|mid|][|rows|] == mid[|rows|];
        }
      }
    }
  }

  /** After insert the stored names are the old ones plus the folder's images. */
  lemma {:induction false} InsertPassStored(rows: seq<PhotoRow>, counter: int, listing: seq<string>,
                                            extract: string -> ExifInfo)
    ensures StoredNames(InsertPass(rows, counter, listing, extract).0) == StoredNames(rows) + FolderImages(listing)
    decreases |listing|
  {
    if listing != [] {
      var (mid, midCounter) := InsertOne(rows, counter, listing[0], extract);
      InsertOneEffect(rows, counter, listing[0], extract);
      InsertPassStored(mid, midCounter, listing[1..], extract);
      FolderImagesCons(listing);
    }
  }

  /** Every appended row carries an image of the folder that was not stored before. */
  lemma FolderImagesTail(listing: seq<string>)
    requires listing != []
    ensures FolderImages(listing[1..]) <= FolderImages(listing)
    ensures IsImageFile(listing[0]) ==> ImageKey(listing[0]) in FolderImages(listing)
  {
    forall x | x in FolderImages(listing[1..]) ensures x in FolderImages(listing) {
      var f :| f in listing[1..] && IsImageFile(f) && x == ImageKey(f);
      var k :| 0 <= k < |listing[1..]| && listing[1..][k] == f;
      assert listing[k + 1] == f;
    }
  }

  lemma {:induction false} InsertPassFresh(rows: seq<PhotoRow>, counter: int, listing: seq<string>,
                                           extract: string -> ExifInfo)
    ensures var rows' := InsertPass(rows, counter, listing, extract).0;
      forall k :: |rows| <= k < |rows'| ==>
        && rows'[k].imageFilename.Some?
        && rows'[k].imageFilename.value in FolderImages(listing) - StoredNames(rows)
    decreases |listing|
  {
    if listing != [] {
      var (mid, midCounter) := InsertOne(rows, counter, listing[0], extract);
      InsertOneEffect(rows, counter, listing[0], extract);
      InsertPassFresh(mid, midCounter, listing[1..], extract);
      InsertPassShape(mid, midCounter, listing[1..], extract);
      FolderImagesTail(listing);
      var rows' := InsertPass(mid, midCounter, listing[1..], extract).0;
      assert rows' == InsertPass(rows, counter, listing, extract).0;
      forall k | |rows| <= k < |rows'|
        ensures rows'[k].imageFilename.Some?
        ensures rows'[k].imageFilename.value in FolderImages(listing) - StoredNames(rows)
      {
        if mid != rows && k == |rows| {
          assert rows'[k] == rows'[..|mid|][k] == mid[|rows|];
        }
      }
    }
  }

  /** A row inserted for file `f`: its `/images/` key and what `extract_metadata` read from `f`. */
  predicate InsertedFrom(row: PhotoRow, f: string, extract: string -> ExifInfo) {
    row == NewPhotoRow(row.id, ImageKey(f), extract(f))
  }

  /** The row is the new row of one of the listed files. */
  ghost predicate InsertedFromListing(row: PhotoRow, listing: seq<string>, extract: string -> ExifInfo) {
    exists f :: f in listing && InsertedFrom(row, f, extract)
  }

  /** Every appended row is the new row of one of the listed files. */
  lemma {:induction false} InsertPassRows(rows: seq<PhotoRow>, counter: int, listing: seq<string>,
                                          extract: string -> ExifInfo)
    ensures var rows' := InsertPass(rows, counter, listing, extract).0;
      forall k :: |rows| <= k < |rows'| ==> InsertedFromListing(rows'[k], listing, extract)
    decreases |listing|
  {
    if listing != [] {
      var (mid, midCounter) := InsertOne(rows, counter, listing[0], extract);
      InsertOneEffect(rows, counter, listing[0], extract);
      InsertPassRows(mid, midCounter, listing[1..], extract);
      InsertPassShape(mid, midCounter, listing[1..], extract);
      var rows' := InsertPass(mid, midCounter, listing[1..], extract).0;
      assert rows' == InsertPass(rows, counter, listing, extract).0;
      forall k | |rows| <= k < |rows'|
        ensures InsertedFromListing(rows'[k], listing, extract)
      {
        if mid != rows && k == |rows| {
          assert rows'[k] == rows'[..|mid|][k] == mid[|rows|];
          assert InsertedFrom(rows'[k], listing[0], extract);
        } else {
          assert |mid| <= k < |rows'|;
          assert InsertedFromListing(rows'[k], listing[1..], extract);
          var f :| f in listing[1..] && InsertedFrom(rows'[k], f, extract);
          assert f in listing;
        }
      }
    }
  }

  /** No two appended rows share a filename. */
  lemma {:induction false} InsertPassDistinct(rows: seq<PhotoRow>, counter: int, listing: seq<string>,
                                              extract: string -> ExifInfo)
    ensures var rows' := InsertPass(rows, counter, listing, extract).0;
      forall j, k :: |rows| <= j < k < |rows'| ==> rows'[j].imageFilename != rows'[k].imageFilename
    decreases |listing|
  {
    if listing != [] {
      var (mid, midCounter) := InsertOne(rows, counter, listing[0], extract);
      InsertOneEffect(rows, counter, listing[0], extract);
      InsertPassDistinct(mid, midCounter, listing[1..], extract);
      assert InsertPass(rows, counter, listing, extract) == InsertPass(mid, midCounter, listing[1..], extract);
      if mid != rows {
        InsertPassShape(mid, midCounter, listing[1..], extract);
        InsertPassFresh(mid, midCounter, listing[1..], extract);
        var rows' := InsertPass(rows, counter, listing, extract).0;
        assert rows'[|rows|] == rows'[..|mid|][|rows|] == mid[|rows|];
        assert mid[|rows|].imageFilename.value in StoredNames(mid);
        forall j, k | |rows| <= j < k < |rows'| ensures rows'[j].imageFilename != rows'[k].imageFilename {
          if j == |rows| {
            assert rows'[k].imageFilename.value !in StoredNames(mid);
          }
        }
      }
    }
  }

  /**
   * insert keeps every existing row and appends, with fresh consecutive ids,
   * one row for each image of the folder that is not yet stored: every
   * appended filename is such an image, no two appended rows share a
   * filename, and afterwards every image of the folder is stored.
   */
  lemma InsertPassEffect(rows: seq<PhotoRow>, counter: int, listing: seq<string>, extract: string -> ExifInfo)
    ensures var (rows', counter') := InsertPass(rows, counter, listing, extract);
      && |rows| <= |rows'| && rows'[..|rows|] == rows
      && counter' == counter + (|rows'| - |rows|)
      && StoredNames(rows') == StoredNames(rows) + FolderImages(listing)
      && (forall k :: |rows| <= k < |rows'| ==>
            && rows'[k].id == counter + 1 + (k - |rows|)
            && rows'[k].imageFilename.Some?
            && rows'[k].imageFilename.value in FolderImages(listing) - StoredNames(rows))
      && (forall j, k :: |rows| <= j < k < |rows'| ==> rows'[j].imageFilename != rows'[k].imageFilename)
      && (forall k :: |rows| <= k < |rows'| ==> InsertedFromListing(rows'[k], listing, extract))
  {
    InsertPassRows(rows, counter, listing, extract);
    InsertPassShape(rows, counter, listing, extract);
    InsertPassStored(rows, counter, listing, extract);
    InsertPassFresh(rows, counter, listing, extract);
    InsertPassDistinct(rows, counter, listing, extract);
  }

  /** insert keeps the database invariant: new photo ids are fresh. */
  lemma InsertPassPreservesValid(t: Tables, listing: seq<string>, extract: string -> ExifInfo)
    requires Valid(t)
    ensures var (photos, counter) := InsertPass(t.photos, t.photoSeq, listing, extract);
      Valid(t.(photos := photos, photoSeq := counter))
  {
    InsertPassEffect(t.photos, t.photoSeq, listing, extract);
    var (photos, counter) := InsertPass(t.photos, t.photoSeq, listing, extract);
    forall k | 0 <= k < |t.photos| ensures photos[k] == t.photos[k] {
      assert photos[..|t.photos|][k] == photos[k];
    }
  }

  /** After `process_images` the stored filenames are exactly the folder's images. */
  lemma ProcessImagesMirrorsFolder(rows: seq<PhotoRow>, counter: int, listing: seq<string>,
                                   extract: string -> ExifInfo)
    ensures StoredNames(InsertPass(Synced(rows, FolderImages(listing)), counter, listing, extract).0)
      == FolderImages(listing)
  {
    var synced := Synced(rows, FolderImages(listing));
    InsertPassEffect(synced, counter, listing, extract);
    assert StoredNames(synced) <= FolderImages(listing) by {
      forall x | x in StoredNames(synced) ensures x in FolderImages(listing) {
        var r :| r in synced && r.imageFilename == Some(x);
      }
    }
  }

  lemma ConsKeepsIdsUnique(row: PhotoRow, rows: seq<PhotoRow>)
    requires UniquePhotoIds(rows)
    requires forall k :: 0 <= k < |rows| ==> rows[k].id != row.id
    ensures UniquePhotoIds([row] + rows)
  {
    var r := [row] + rows;
    forall i, j | 0 <= i < j < |r| ensures r[i].id != r[j].id {
      assert r[j] == rows[j - 1];
      if i > 0 {
        assert r[i] == rows[i - 1];
      }
    }
  }

  lemma {:induction false} WithoutNamesKeepsIdsUnique(rows: seq<PhotoRow>, gone: set<string>)
    requires UniquePhotoIds(rows)
    ensures UniquePhotoIds(WithoutNames(rows, gone))
  {
    if rows != [] {
      var rest := WithoutNames(rows[1..], gone);
      WithoutNamesKeepsIdsUnique(rows[1..], gone);
      forall k | 0 <= k < |rest| ensures rest[k].id != rows[0].id {
        var j :| 0 <= j < |rows[1..]| && rows[1..][j] == rest[k];
        assert rows[j + 1] == rest[k];
      }
      if rows[0].imageFilename.None? || rows[0].imageFilename.value !in gone {
        ConsKeepsIdsUnique(rows[0], rest);
      }
    }
  }

  lemma ConsKeepsIdsAscending(row: PhotoRow, rows: seq<PhotoRow>)
    requires AscendingPhotoIds(rows)
    requires forall k :: 0 <= k < |rows| ==> row.id < rows[k].id
    ensures AscendingPhotoIds([row] + rows)
  {
    var r := [row] + rows;
    forall i, j | 0 <= i < j < |r| ensures r[i].id < r[j].id {
      assert r[j] == rows[j - 1];
      if i > 0 {
        assert r[i] == rows[i - 1];
      }
    }
  }

  lemma {:induction false} WithoutNamesKeepsIdsAscending(rows: seq<PhotoRow>, gone: set<string>)
    requires AscendingPhotoIds(rows)
    ensures AscendingPhotoIds(WithoutNames(rows, gone))
  {
    if rows != [] {
      var rest := WithoutNames(rows[1..], gone);
      WithoutNamesKeepsIdsAscending(rows[1..], gone);
      forall k | 0 <= k < |rest| ensures rows[0].id < rest[k].id {
        var j :| 0 <= j < |rows[1..]| && rows[1..][j] == rest[k];
        assert rows[j + 1] == rest[k];
      }
      if rows[0].imageFilename.None? || rows[0].imageFilename.value !in gone {
        ConsKeepsIdsAscending(rows[0], rest);
      }
    }
  }

  /** `process_images` keeps the database invariant. */
  lemma ProcessImagesPreservesValid(t: Tables, listing: seq<string>, extract: string -> ExifInfo)
    requires Valid(t)
    ensures var synced := t.(photos := Synced(t.photos, FolderImages(listing)));
      && Valid(synced)
      && var (photos, counter) := InsertPass(synced.photos, synced.photoSeq, listing, extract);
         Valid(synced.(photos := photos, photoSeq := counter))
  {
    var synced := t.(photos := Synced(t.photos, FolderImages(listing)));
    WithoutNamesKeepsIdsUnique(t.photos, StoredNames(t.photos) - FolderImages(listing));
    WithoutNamesKeepsIdsAscending(t.photos, StoredNames(t.photos) - FolderImages(listing));
    forall k | 0 <= k < |synced.photos| ensures synced.photos[k].id <= synced.photoSeq {
      assert synced.photos[k] in t.photos;
    }
    InsertPassPreservesValid(synced, listing, extract);
  }
}

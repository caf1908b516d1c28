/**
 * The image handlers: `POST /upload`, `GET /images` and `DELETE /images/:id`,
 * working on the `images` table and the upload directory.
 */
module Images {
  import opened Options
  import opened Tables
  import opened Js
  import opened Server

  const NoFileMessage := "No file uploaded"
  const CategoryRequiredMessage := "Category is required"
  const UploadedMessage := "Image uploaded successfully"
  const FetchErrorMessage := "Error fetching image path"
  const NotFoundMessage := "Image not found"
  const UnlinkErrorMessage := "Error deleting file"
  const RecordErrorMessage := "Error deleting record"
  const DeletedMessage := "Image deleted successfully"

  /** `POST /upload`. The upload middleware has already written the file under
      its stored name (`file`) before the handler runs; the handler then checks
      for a file and a category and inserts the row. An insert error is thrown
      from the query callback and brings the process down. */
  function Upload(s: State, file: Option<string>, category: Option<string>,
                  description: Option<string>, insert: DbOutcome): (r: Transition)
    ensures r.next.bookings == s.bookings && r.next.users == s.users
    ensures file.None? ==> r == Transition(s, Reply(400, Message(NoFileMessage)))
    ensures file.Some? ==> r.next.blobs == s.blobs + {file.value}
    ensures Given(file) && !Given(category) ==>
              r.response == Reply(400, Message(CategoryRequiredMessage))
    ensures HasStatus(r.response, 200) <==> Given(file) && Given(category) && insert.DbOk?
    ensures r.response.Crash? <==> Given(file) && Given(category) && insert.DbErr?
    ensures !HasStatus(r.response, 200) ==> r.next.images == s.images
    ensures HasStatus(r.response, 200) ==>
              && r.response.body == Created(UploadedMessage, s.images.nextId)
              && (WellFormed(s.images) ==>
                    && Get(r.next.images, s.images.nextId).Some?
                    && var stored := Get(r.next.images, s.images.nextId).value;
                       && stored.path == file.value
                       && stored.category == category.value
                       && (description.Some? && description.value != "" ==> stored.description == description.value)
                       && (description.None? || description.value == "" ==> stored.description == ""))
    ensures forall k :: k != s.images.nextId ==> Get(r.next.images, k) == Get(s.images, k)
    ensures Valid(s) ==> Valid(r.next)
  {
    var received := if file.Some? then s.(blobs := s.blobs + {file.value}) else s;
    if !Given(file) then
      Transition(received, Reply(400, Message(NoFileMessage)))
    else if !Given(category) then
      Transition(received, Reply(400, Message(CategoryRequiredMessage)))
    else
      match insert
      case DbErr => Transition(received, Crash)
      case DbOk =>
        var row := Image(file.value, category.value, OrEmpty(description));
        Transition(received.(images := Insert(s.images, row)),
                   Reply(200, Created(UploadedMessage, s.images.nextId)))
  }

  /** `WHERE category = ?`: the rows with exactly that category, in table order. */
  function WithCategory(rows: seq<Row<Image>>, category: string): (r: seq<Row<Image>>)
    ensures |r| <= |rows|
    ensures forall i :: 0 <= i < |r| ==> r[i] in rows && r[i].data.category == category
    ensures forall j :: 0 <= j < |rows| && rows[j].data.category == category ==> rows[j] in r
  {
    if |rows| == 0 then []
    else if rows[0].data.category == category then [rows[0]] + WithCategory(rows[1..], category)
    else WithCategory(rows[1..], category)
  }

  /** Whether a response is an image list that contains `row`. */
  predicate Listed(r: Response, row: Row<Image>)
  {
    r.Reply? && r.body.ImageList? && row in r.body.rows
  }

  /** `GET /images`: all rows, or only those of the requested category when the
      `category` query parameter is non-empty. A query error is thrown. */
  function List(s: State, category: Option<string>, query: DbOutcome): (r: Transition)
    ensures r.next == s
    ensures r.response.Crash? <==> query.DbErr?
    ensures query.DbOk? ==> r.response.Reply? && r.response.status == 200 && r.response.body.ImageList?
    ensures query.DbOk? ==> forall row ::
              Listed(r.response, row) <==>
              row in s.images.rows && (Given(category) ==> row.data.category == category.value)
  {
    match query
    case DbErr => Transition(s, Crash)
    case DbOk =>
      var rows := if Given(category) then WithCategory(s.images.rows, category.value) else s.images.rows;
      Transition(s, Reply(200, ImageList(rows)))
  }

  /** `fs.unlink`: removes an existing file unless the filesystem reports an
      error; a file that is not there is an error too. */
  function Unlink(blobs: set<string>, name: string, outcome: FsOutcome): (r: Option<set<string>>)
    ensures r.Some? <==> name in blobs && outcome.FsOk?
    ensures r.Some? ==> name !in r.value && r.value + {name} == blobs
  {
    if name in blobs && outcome.FsOk? then Some(blobs - {name}) else None
  }

  /** `DELETE /images/:id`: look the row up, unlink its file, then delete the
      row. Each step's failure answers 500 and stops, leaving what the earlier
      steps did in place. */
  function Delete(s: State, id: nat, select: DbOutcome, unlink: FsOutcome, remove: DbOutcome): (r: Transition)
    ensures r.next.bookings == s.bookings && r.next.users == s.users
    ensures select.DbErr? ==> r == Transition(s, Reply(500, Message(FetchErrorMessage)))
    ensures select.DbOk? && Get(s.images, id).None? ==>
              r == Transition(s, Reply(404, Message(NotFoundMessage)))
    ensures r.response == Reply(500, Message(UnlinkErrorMessage)) <==>
              && select.DbOk? && Get(s.images, id).Some?
              && (Get(s.images, id).value.path !in s.blobs || unlink.FsErr?)
    ensures r.response == Reply(500, Message(UnlinkErrorMessage)) ==> r.next == s
    ensures HasStatus(r.response, 200) <==>
              && select.DbOk? && Get(s.images, id).Some?
              && Get(s.images, id).value.path in s.blobs && unlink.FsOk? && remove.DbOk?
    // the row goes only when everything succeeded, and never before its file
    ensures r.next.images != s.images ==> HasStatus(r.response, 200)
    ensures r.next.images != s.images ==> Get(s.images, id).value.path !in r.next.blobs
    ensures HasStatus(r.response, 200) ==>
              && r.response.body == Message(DeletedMessage)
              && Get(r.next.images, id).None?
              && forall k :: k != id ==> Get(r.next.images, k) == Get(s.images, k)
    // the only file that can go is the row's own
    ensures r.next.blobs == s.blobs ||
            (Get(s.images, id).Some? && r.next.blobs == s.blobs - {Get(s.images, id).value.path})
    ensures r.response == Reply(500, Message(RecordErrorMessage)) ==>
              && r.next.images == s.images
              && r.next.blobs == s.blobs - {Get(s.images, id).value.path}
    ensures Valid(s) ==> Valid(r.next)
  {
    match select
    case DbErr => Transition(s, Reply(500, Message(FetchErrorMessage)))
    case DbOk =>
      match Get(s.images, id)
      case None => Transition(s, Reply(404, Message(NotFoundMessage)))
      case Some(image) =>
        match Unlink(s.blobs, image.path, unlink)
        case None => Transition(s, Reply(500, Message(UnlinkErrorMessage)))
        case Some(blobs) =>
          match remove
          case DbErr => Transition(s.(blobs := blobs), Reply(500, Message(RecordErrorMessage)))
          case DbOk =>
            Transition(s.(blobs := blobs, images := Remove(s.images, id)),
                       Reply(200, Message(DeletedMessage)))
  }

  /** After a successful upload the new row is listed under its own category and
      in the full list, and not under any other category. */
  lemma UploadThenList(s: State, name: string, category: string, description: Option<string>,
                       other: string)
    requires name != "" && category != ""
    requires other != "" && other != category
    ensures var up := Upload(s, Some(name), Some(category), description, DbOk);
            var row := Row(s.images.nextId, Image(name, category, OrEmpty(description)));
            && Listed(List(up.next, Some(category), DbOk).response, row)
            && Listed(List(up.next, None, DbOk).response, row)
            && !Listed(List(up.next, Some(other), DbOk).response, row)
  {
  }

  /** Deleting the row a successful upload created, with every step succeeding,
      gives back the image rows from before the upload and removes the file. */
  lemma UploadThenDelete(s: State, name: string, category: string, description: Option<string>)
    requires Valid(s)
    requires name != "" && category != ""
    ensures var up := Upload(s, Some(name), Some(category), description, DbOk);
            var del := Delete(up.next, s.images.nextId, DbOk, FsOk, DbOk);
            && del.response == Reply(200, Message(DeletedMessage))
            && del.next.images.rows == s.images.rows
            && del.next.blobs == s.blobs - {name}
  {
    var row := Image(name, category, OrEmpty(description));
    InsertThenRemove(s.images, row);
  }

  /** There is no self-healing: when the row's file is already gone, the delete
      answers "Error deleting file" and keeps the row, whatever the filesystem
      and the database would do. */
  lemma MissingFileKeepsRow(s: State, id: nat, unlink: FsOutcome, remove: DbOutcome)
    requires Get(s.images, id).Some? && Get(s.images, id).value.path !in s.blobs
    ensures Delete(s, id, DbOk, unlink, remove) == Transition(s, Reply(500, Message(UnlinkErrorMessage)))
  {
  }

  /** A row-delete failure after the unlink leaves a row whose file is gone. */
  lemma PartialDeleteDangles(s: State, id: nat)
    requires Get(s.images, id).Some? && Get(s.images, id).value.path in s.blobs
    ensures var r := Delete(s, id, DbOk, FsOk, DbErr);
            && r.response == Reply(500, Message(RecordErrorMessage))
            && !Consistent(r.next)
  {
  }

  /** An upload that stores no row (rejected for its category, or crashing on
      the insert) leaves its file behind with no row naming it. */
  lemma FailedUploadOrphansFile(s: State, name: string, category: Option<string>,
                                description: Option<string>, insert: DbOutcome)
    requires name != ""
    requires forall i :: 0 <= i < |s.images.rows| ==> s.images.rows[i].data.path != name
    ensures var r := Upload(s, Some(name), category, description, insert);
            !HasStatus(r.response, 200) ==>
              && name in r.next.blobs
              && forall i :: 0 <= i < |r.next.images.rows| ==> r.next.images.rows[i].data.path != name
  {
  }

  /** An upload keeps every row's file in place. */
  lemma UploadKeepsConsistent(s: State, file: Option<string>, category: Option<string>,
                              description: Option<string>, insert: DbOutcome)
    requires Consistent(s)
    ensures Consistent(Upload(s, file, category, description, insert).next)
  {
  }

  /** No other row names the same file as the row with this id. */
  ghost predicate Unshared(s: State, id: nat)
  {
    forall i, j ::
      (0 <= i < |s.images.rows| && 0 <= j < |s.images.rows| &&
       s.images.rows[i].id == id && s.images.rows[j].id != id) ==>
      s.images.rows[i].data.path != s.images.rows[j].data.path
  }

  /** A delete keeps every remaining row's file in place, except when the row
      delete fails after the unlink, provided no other row shares the file. */
  lemma DeleteKeepsConsistent(s: State, id: nat, select: DbOutcome, unlink: FsOutcome, remove: DbOutcome)
    requires Consistent(s) && Unshared(s, id)
    ensures var r := Delete(s, id, select, unlink, remove);
            r.response != Reply(500, Message(RecordErrorMessage)) ==> Consistent(r.next)
  {
  }

  /** Without that proviso the property fails: two rows naming one file, and
      deleting one of them leaves the other pointing at nothing. */
  lemma SharedFileDangles()
    ensures var shared := Image("1-a.png", "rooms", "");
            var s := State(Table([Row(1, shared), Row(2, shared)], 3), {"1-a.png"},
                           Table([], 1), Table([], 1));
            var r := Delete(s, 1, DbOk, FsOk, DbOk);
            && Consistent(s)
            && HasStatus(r.response, 200)
            && !Consistent(r.next)
  {
  }

}

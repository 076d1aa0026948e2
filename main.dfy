/** The image handlers of the server (src/main.py) and the background work they queue.

    The server state is one object holding the configuration, the database connection,
    the image directory and the queue of deferred steps. Identifiers and timestamps,
    which the source draws from `uuid4()` and the clock, are parameters. Whether the
    image library decodes a stored file is a parameter of the step that converts it. */
module Main {
  import opened Wrappers
  import opened Configuration
  import opened Utils
  import opened Tables
  import Migrations

  /** A deferred step queued on a response. */
  datatype Task = SaveFile(path: string, content: Bytes) | ConvertToWebp(path: string)

  /** The exceptions a handler can let escape. */
  datatype PyError = IntegrityError(cause: DbError) | TypeError | FileNotFoundError

  /** The `result` of a successful `direct_upload`: the new id and the path to POST to. */
  datatype UploadSlot = UploadSlot(id: ImageId, uploadPath: string)

  /** What `upload_image` answers: `{'status': 'ok'}` or a bare 404. */
  datatype UploadStatus = StatusOk | NotFound

  /** What `get_image` produces: the file with its content type, nothing at all (the
      handler falls through and returns None), or an exception. */
  datatype ImageResponse = Content(body: Blob, contentType: string) | NoResponse | Raised(error: PyError)

  const WebpContentType: string := "image/webp"

  /** The row `direct_upload` inserts: an unnamed draft, signed URLs not required. */
  function DraftRow(now: int, account: AccountId): Image {
    Image(None, now, false, true, account)
  }

  /** The row `upload_directly` inserts before renaming it: already published, and named
      with the full file name. */
  function DirectRow(now: int, account: AccountId, filename: string): Image {
    Image(Some(filename), now, false, false, account)
  }

  /** Both upload paths queue the save of the original before its conversion. */
  function UploadTasks(storage: string, filename: string, content: Bytes): seq<Task> {
    var path := Join(storage, filename);
    [SaveFile(path, content), ConvertToWebp(path)]
  }

  /** The image directory after one deferred step. */
  function RunTask(t: Task, files: map<string, Blob>, decodes: bool): map<string, Blob> {
    match t
    case SaveFile(path, content) => AfterSave(files, path, content)
    case ConvertToWebp(path) => AfterConvert(files, path, decodes)
  }

  /** The single-call upload ends in the same row as a slot request followed by an upload
      with the same id, time, account and file name, and fails in the same cases. */
  lemma DirectUploadMatchesTwoSteps(accounts: map<AccountId, string>, images: map<ImageId, Image>,
                                    foreignKeys: bool, id: ImageId, now: int, account: AccountId,
                                    filename: string)
    ensures var direct := InsertImage(accounts, images, foreignKeys, id, DirectRow(now, account, filename));
            var slot := InsertImage(accounts, images, foreignKeys, id, DraftRow(now, account));
            && direct.Success? == slot.Success?
            && (direct.Success? ==>
                  var stem := FilenameWithoutExt(filename);
                  && Publish(direct.value, id, stem) == Publish(slot.value, id, stem)
                  && Publish(direct.value, id, stem)[id] == Image(Some(stem), now, false, false, account))
  {
  }

  /** An upload of a plain name such as "cat.png" into a draft of `account`, once its two
      queued steps have run and the image decodes, is served to `account` as the WebP
      re-encoding of exactly the uploaded bytes. */
  lemma {:induction false} UploadThenServe(images: map<ImageId, Image>, files: map<string, Blob>,
                                           storage: string, id: ImageId, account: AccountId,
                                           filename: string, content: Bytes)
    requires IsDraft(images, id) && images[id].accountId == account
    requires '/' !in filename && GetFileExt(filename) != "" && PathSuffix(filename) != ""
    ensures var stem := FilenameWithoutExt(filename);
            var published := Publish(images, id, stem);
            var tasks := UploadTasks(storage, filename, content);
            var after := RunTask(tasks[1], RunTask(tasks[0], files, true), true);
            && SelectPublishedName(published, id, account) == Some(Some(stem))
            && ServedPath(storage, stem) in after
            && after[ServedPath(storage, stem)] == Webp(Raw(content))
  {
    var path := Join(storage, filename);
    ServedPathMatchesConverted(storage, filename);
    var saved := AfterSave(files, path, content);
    assert ConvertSucceeds(saved, path, true);
  }

  class Server {
    const config: Config
    const db: Connection
    const disk: BlobStore
    var pending: seq<Task>

    /** `startup`: open the configured database, create the schema, seed the default
        account. */
    constructor Startup(cfg: Config, dbFiles: map<string, Snapshot>, disk: BlobStore)
      ensures config == cfg && this.disk == disk && fresh(db) && pending == []
      ensures var s := OpenedDatabase(InternalDbName(cfg), dbFiles);
        && db.foreignKeys
        && db.tables == s.tables + SchemaTables
        && db.images == s.images
        && db.accounts == Migrations.WithDefaultAccount(cfg, s.accounts)
      ensures var s := OpenedDatabase(InternalDbName(cfg), dbFiles);
        ForeignKeysHold(s.accounts, s.images) && NamedWhenPublished(s.images) ==> db.Consistent()
    {
      var conn := new Connection.Connect(InternalDbName(cfg), dbFiles);
      ghost var openedAccounts := conn.accounts;
      Migrations.SetupTables(conn);
      Migrations.SetupDefaultAccount(cfg, conn);
      if ForeignKeysHold(openedAccounts, conn.images) {
        Migrations.DefaultAccountKeepsForeignKeys(cfg, openedAccounts, conn.images);
      }
      config := cfg;
      db := conn;
      this.disk := disk;
      pending := [];
    }

    /** `cloudflare_direct_upload`: insert a fresh draft under `id` for the account in the
        path and hand out the upload path; an integrity error changes nothing. */
    method DirectUpload(accountId: AccountId, id: ImageId, now: int) returns (r: Result<UploadSlot, PyError>)
      modifies db
      ensures var ins := InsertImage(old(db.accounts), old(db.images), old(db.foreignKeys), id, DraftRow(now, accountId));
        && (ins.Success? ==> r == Success(UploadSlot(id, "/cloudflare/" + id)) && db.images == ins.value)
        && (ins.Failure? ==> r == Failure(IntegrityError(ins.error)) && db.images == old(db.images))
      ensures db.accounts == old(db.accounts) && db.tables == old(db.tables)
      ensures db.foreignKeys == old(db.foreignKeys)
      ensures old(db.Consistent()) && db.foreignKeys ==> db.Consistent()
    {
      var ins := InsertImage(db.accounts, db.images, db.foreignKeys, id, DraftRow(now, accountId));
      if ins.Failure? {
        return Failure(IntegrityError(ins.error));
      }
      if db.foreignKeys && db.Consistent() {
        InsertKeepsInvariants(db.accounts, db.images, id, DraftRow(now, accountId));
      }
      db.images := ins.value;
      r := Success(UploadSlot(id, "/cloudflare/" + id));
    }

    /** `cloudflare_upload_image`: 404 unless `id` is a draft (of any account); otherwise
        queue the save and the conversion and publish the row under the file name
        without its extension. */
    method UploadImage(id: ImageId, filename: string, content: Bytes) returns (r: UploadStatus)
      modifies this, db
      ensures r == (if IsDraft(old(db.images), id) then StatusOk else NotFound)
      ensures r.NotFound? ==> db.images == old(db.images) && pending == old(pending)
      ensures r.StatusOk? ==>
        && db.images == Publish(old(db.images), id, FilenameWithoutExt(filename))
        && pending == old(pending) + UploadTasks(config.imagesStorage, filename, content)
      ensures db.accounts == old(db.accounts) && db.tables == old(db.tables)
      ensures db.foreignKeys == old(db.foreignKeys)
      ensures old(db.Consistent()) ==> db.Consistent()
      ensures r.StatusOk? ==> !IsDraft(db.images, id)
    {
      var filePath := Join(config.imagesStorage, filename);
      if !IsDraft(db.images, id) {
        return NotFound;
      }
      pending := pending + [SaveFile(filePath, content), ConvertToWebp(filePath)];
      if db.Consistent() {
        PublishKeepsInvariants(db.accounts, db.images, id, FilenameWithoutExt(filename));
      }
      db.images := Publish(db.images, id, FilenameWithoutExt(filename));
      r := StatusOk;
    }

    /** `cloudflare_upload_directly`: insert a published row named with the full file name,
        queue the save and the conversion, then rename the row to the file name without
        its extension; an integrity error changes nothing and queues nothing. */
    method UploadDirectly(accountId: AccountId, filename: string, content: Bytes, id: ImageId, now: int)
      returns (r: Result<ImageId, PyError>)
      modifies this, db
      ensures var ins := InsertImage(old(db.accounts), old(db.images), old(db.foreignKeys), id,
                                     DirectRow(now, accountId, filename));
        && (ins.Failure? ==>
              r == Failure(IntegrityError(ins.error)) && db.images == old(db.images) && pending == old(pending))
        && (ins.Success? ==>
              && r == Success(id)
              && db.images == Publish(ins.value, id, FilenameWithoutExt(filename))
              && pending == old(pending) + UploadTasks(config.imagesStorage, filename, content))
      ensures db.accounts == old(db.accounts) && db.tables == old(db.tables)
      ensures db.foreignKeys == old(db.foreignKeys)
      ensures old(db.Consistent()) && db.foreignKeys ==> db.Consistent()
    {
      var filePath := Join(config.imagesStorage, filename);
      var row := DirectRow(now, accountId, filename);
      var ins := InsertImage(db.accounts, db.images, db.foreignKeys, id, row);
      if ins.Failure? {
        return Failure(IntegrityError(ins.error));
      }
      if db.foreignKeys && db.Consistent() {
        InsertKeepsInvariants(db.accounts, db.images, id, row);
        PublishKeepsInvariants(db.accounts, ins.value, id, FilenameWithoutExt(filename));
      }
      db.images := ins.value;
      pending := pending + [SaveFile(filePath, content), ConvertToWebp(filePath)];
      db.images := Publish(db.images, id, FilenameWithoutExt(filename));
      r := Success(id);
    }

    /** `cloudflare_get_image`: serve the converted file only for a published row of `id`
        owned by `accountId`; with no such row there is no response. */
    method GetImage(accountId: AccountId, id: ImageId) returns (r: ImageResponse)
      ensures r.NoResponse? <==> SelectPublishedName(db.images, id, accountId).None?
      ensures !r.NoResponse? ==>
        id in db.images && db.images[id].accountId == accountId && !db.images[id].draft
      ensures r.Content? <==>
        && id in db.images && db.images[id].accountId == accountId && !db.images[id].draft
        && db.images[id].name.Some?
        && ServedPath(config.imagesStorage, db.images[id].name.value) in disk.files
      ensures r.Content? ==>
        && r.body == disk.files[ServedPath(config.imagesStorage, db.images[id].name.value)]
        && r.contentType == WebpContentType
      ensures r.Raised? ==> r.error == (if db.images[id].name.None? then TypeError else FileNotFoundError)
      ensures db.Consistent() ==> r != Raised(TypeError)
    {
      var row := SelectPublishedName(db.images, id, accountId);
      if row.None? {
        return NoResponse;
      }
      if row.value.None? {
        return Raised(TypeError);
      }
      var path := ServedPath(config.imagesStorage, row.value.value);
      if path !in disk.files {
        return Raised(FileNotFoundError);
      }
      r := Content(disk.files[path], WebpContentType);
    }

    /** Run the oldest deferred step, if any; `decodes` says whether the image library
        can read the file a conversion step opens. */
    method RunNextTask(decodes: bool) returns (ran: Option<Task>)
      modifies this, disk
      ensures old(pending) == [] ==> ran == None && pending == [] && disk.files == old(disk.files)
      ensures old(pending) != [] ==>
        && ran == Some(old(pending)[0])
        && pending == old(pending)[1..]
        && disk.files == RunTask(old(pending)[0], old(disk.files), decodes)
    {
      if pending == [] {
        return None;
      }
      var t := pending[0];
      pending := pending[1..];
      match t {
        case SaveFile(path, content) =>
          disk.SaveFile(path, content);
        case ConvertToWebp(path) =>
          var _ := disk.ConvertToWebp(path, decodes);
      }
      ran := Some(t);
    }
  }

  /** "cat.png" has the extension ".png" for both libraries, and is stored as "cat". */
  lemma CatPngNames()
    ensures GetFileExt("cat.png") == ".png" && PathSuffix("cat.png") == ".png"
    ensures FilenameWithoutExt("cat.png") == "cat"
    ensures '/' !in "cat.png"
  {
    assert OneComponent("cat.png", 0, 3);
    GetFileExtComplete("cat.png", 3);
    LastIndexOfIs("cat.png", '.', 3);
  }

  /** The upload scenario end to end: a slot for the default account, an upload of
      "cat.png" into it, a second upload refused, the two deferred steps, then the image
      served to its account and to no other. */
  method CatScenario(content: Bytes) {
    CatPngNames();
    var cfg := Config("http://localhost:8000", false, false, "../images", "../videos", "cloudflare.db", true);
    var disk := new BlobStore(map[]);
    var server := new Server.Startup(cfg, map[], disk);
    assert InternalDbName(cfg) == ":memory:";
    assert server.db.images == map[] && DefaultAccountId in server.db.accounts;
    var slot := server.DirectUpload(DefaultAccountId, "X", 1700000000);
    assert "/cloudflare/" + "X" == "/cloudflare/X";
    assert slot == Success(UploadSlot("X", "/cloudflare/X"));
    var first := server.UploadImage("X", "cat.png", content);
    assert first == StatusOk;
    var second := server.UploadImage("X", "cat.png", content);
    assert second == NotFound;
    UploadThenServe(map["X" := DraftRow(1700000000, DefaultAccountId)], map[], "../images", "X",
                    DefaultAccountId, "cat.png", content);
    var tasks := UploadTasks("../images", "cat.png", content);
    assert server.pending == tasks;
    var saveStep := server.RunNextTask(true);
    var convertStep := server.RunNextTask(true);
    assert server.disk.files == RunTask(tasks[1], RunTask(tasks[0], map[], true), true);
    var mine := server.GetImage(DefaultAccountId, "X");
    assert mine == Content(Webp(Raw(content)), WebpContentType);
    var theirs := server.GetImage("acct2", "X");
    assert theirs == NoResponse;
  }
}

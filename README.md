# Image lifecycle of cloudflare-images-server, in Dafny

cloudflare-images-server imitates an image-hosting API. A client asks for an upload
slot, which creates a draft row in the `image` table. It then posts the file to the
slot, which publishes the row and queues two deferred steps: save the original, then
convert it to WebP. A client can also post a file in a single call. A published image
is served to its own account as the converted file.

This project models that core:

- `main.dfy` (module `Main`): the four image handlers as methods of a `Server` class. The
  class holds the configuration, the database connection, the image directory and the
  queue of deferred steps. Handlers change the table and the queue. A separate method
  runs the oldest queued step.
- `tables.dfy` (module `Tables`): the `account` and `image` tables as maps keyed by
  primary key. The INSERT, UPDATE and SELECT statements the handlers issue are
  functions. The `foreign_keys` pragma is a flag on the connection.
- `migrations.dfy` (module `Migrations`): schema creation and the insert-if-absent of
  the default account.
- `utils.py` helpers (module `Utils`, `utils.dfy`):
  - the extension helpers, built on a model of POSIX `os.path.splitext`;
  - the path mapping of `convert_to_webp`, built on a model of `pathlib`'s name, suffix,
    stem and `with_suffix`;
  - the image directory as a class over a map from path to file.
- `configuration.dfy` (module `Configuration`): `load_config` over an explicit
  environment map, and `internal_db_name`.

Identifiers, timestamps and the image codec's success are parameters. The behaviour
follows the code, including these less obvious consequences of it:

- `filename_without_ext` returns `""` for a name without an extension, because
  `filename[:-0]` is `filename[:0]`. An upload with such a name is stored under the empty
  name. For a non-empty file name, its served path, `<storage>.webp`, is never written by
  that upload's conversion (`Utils.ExtensionlessNameNeverServed`).
- `cloudflare_direct_upload` does no account check of its own, but the schema script
  switches `PRAGMA foreign_keys` on for the same connection, so SQLite rejects the insert
  for an unknown account with an integrity error, on both upload paths.
- A colliding image id fails SQLite's primary-key check, and the model keeps that error
  too.
- When no published row matches, `cloudflare_get_image` falls through and returns
  `None`; it does not return a 404. The model gives `NoResponse`.
- `cloudflare_upload_directly` inserts a row that is already published and named with
  the full file name. Only afterwards does it rename the row to the name without the
  extension (`Main.DirectRow`).
- `cloudflare_upload_image` does not check the account of the draft it publishes.

## Model

| member | source | states |
|---|---|---|
| `Configuration.InternalDbName` | src/config.py:24-26 | the state file path when persistence is on, `:memory:` otherwise |
| `Configuration.LoadConfig` | src/config.py:29-44 | no configuration exactly when HOSTNAME is missing; hostname taken verbatim; each flag true exactly when its variable is set and non-empty; storage paths and state path default to `../images`, `../videos`, `cloudflare.db` |
| `Configuration.FalseTextEnablesFlags` | src/config.py:39 | PERSISTENCE set to the text "false" still turns persistence on, and the state file becomes the database name |
| `Configuration.DbNameFromEnv` | src/config.py:24-44 | for every environment with HOSTNAME, the database is the state file (default `cloudflare.db`) exactly when PERSISTENCE is non-empty text, `:memory:` otherwise |
| `Configuration.OnlyHostnameMeansInMemory` | src/config.py:36-43 | with only HOSTNAME set, every flag is off, every path takes its default, and the database is `:memory:` |
| `Utils.GetFileExt` | src/utils.py:19-20 | the extension is empty or a suffix of the name that starts with '.' and has no further '.' or '/' |
| `Utils.GetFileExtSound` | src/utils.py:19-20 | a non-empty extension starts at a dot after which there is no '.' or '/', with a non-dot character before it in the same path component |
| `Utils.GetFileExtComplete` | src/utils.py:19-20 | conversely, any such dot is where the extension starts, so leading dots of a base name never start one |
| `Utils.FilenameWithoutExt` | src/utils.py:23-24 | with an extension, the result followed by the extension is the name, and it is shorter by the extension's length; without one, the result is `""` |
| `Utils.PyPrefix` | src/utils.py:24 | Python's `s[:stop]`: always a prefix of `s`; a non-negative bound keeps `min(stop, len)` characters; a negative bound drops `-stop` characters from the end, or keeps nothing when it exceeds the length |
| `Utils.Join` | src/main.py:44 | definition, no contract: `Path(dir) / name` as `dir + "/" + name`, and `dir` itself for an empty name |
| `Utils.PathName` | src/utils.py:6 | the last component: a '/'-free suffix of the path, preceded by '/' whenever it is not the whole path |
| `Utils.PathSuffix` | src/utils.py:6 | a suffix of the name that is empty or starts at a dot which is neither the first nor the last character, with no further dot |
| `Utils.PathSuffixComplete` | src/utils.py:6 | conversely, a dot that is neither the first nor the last character of the name, with no dot after it, starts the suffix, so the suffix is non-empty exactly for such names |
| `Utils.PathStem` | src/utils.py:6 | the stem followed by the suffix gives back the name, and a non-empty name has a non-empty stem |
| `Utils.WithSuffix` | src/utils.py:6 | no path when the last component is empty; otherwise, for a suffix without '/', the new last component is the old stem followed by the suffix, and the part before it is unchanged |
| `Utils.WebpPath` | src/utils.py:6 | definition, no contract: `with_suffix(".webp")` of the input path |
| `Utils.WebpPathIdempotent` | src/utils.py:5-11 | the output path keeps the directory and the stem and ends in `.webp`; mapping it again gives itself |
| `Utils.ServedPath` | src/main.py:71 | definition, no contract: `str(Path(storage) / name) + '.webp'` |
| `Utils.ServedPathMatchesConverted` | src/main.py:71 | for a '/'-free name with an extension under both splitext and pathlib (like `cat.png`), the path `get_image` reads equals the path the conversion writes |
| `Utils.ExtensionlessNameNeverServed` | src/utils.py:23-24 | a non-empty name without a splitext extension is stored as `""`, served from `<storage>.webp`, a path the conversion never writes |
| `Utils.TrailingDotNeverServed` | src/main.py:71 | for a name ending in '.', such as `a.`, splitext's extension is `.` or nothing, so the stored name drops that dot or is empty, while pathlib sees no suffix; the path the conversion writes is never the served path |
| `Utils.AfterSave` | src/utils.py:14-16 | after a save, the path holds exactly the new bytes, whatever it held before, and every other path is unchanged |
| `Utils.AfterConvert` | src/utils.py:5-11 | on success, the WebP path holds the re-encoding of the input file and nothing else changes; on failure (no name, no input file, undecodable) nothing changes |
| `Utils.ConvertRerunIsIdempotent` | src/utils.py:5-11 | re-running a conversion on an unchanged input is a no-op, unless the input is its own output |
| `Utils.BlobStore.SaveFile` | src/utils.py:14-16 | the directory after the write is `AfterSave` of the one before |
| `Utils.BlobStore.ConvertToWebp` | src/utils.py:5-11 | the directory after the step is `AfterConvert` of the one before; the output path is returned exactly when the conversion succeeds |
| `Tables.InsertImage` | src/_migrations.py:25-34 | a taken key fails the UNIQUE check; with foreign keys on, an unknown account fails the FOREIGN KEY check; otherwise exactly one new row, and old rows are unchanged |
| `Tables.Publish` | src/main.py:57 | the row, if present, becomes published with the given name; no row appears and no other row changes |
| `Tables.SelectPublishedName` | src/main.py:68-69 | a row is found exactly when the id exists, belongs to the account and is not a draft; the result is that row's name column |
| `Tables.DraftIsNeverSelected` | src/main.py:68-70 | a draft is invisible to every account |
| `Tables.SelectionIsScopedToAccount` | src/main.py:68 | an image visible to one account is invisible to every other account |
| `Tables.IsDraft` | src/main.py:49-50 | definition, no contract: a row with the id exists and has draft = 1 |
| `Tables.OpenedDatabase` | src/main.py:141 | definition, no contract: `:memory:` or a name with no file gives an empty database; otherwise the file's contents |
| `Tables.NoDoubleFinalisation` | src/main.py:49-57 | after a draft is published, the draft check fails for it, and the row carries the new name |
| `Tables.InsertKeepsInvariants` | src/_migrations.py:25-34 | an accepted insert with foreign keys on keeps every image's account existing, and keeps "draft exactly when unnamed" |
| `Tables.PublishKeepsInvariants` | src/main.py:57 | publishing keeps both table invariants |
| `Tables.Connection.Connect` | src/main.py:141 | `:memory:` opens an empty database; a file opens its contents; foreign keys start off |
| `Migrations.WithDefaultAccount` | src/_migrations.py:45-53 | unchanged when the option is off or the default account exists; otherwise exactly the default id with its hash is added; other accounts are untouched |
| `Migrations.DefaultAccountIdempotent` | src/_migrations.py:49-53 | seeding twice gives the same table as seeding once |
| `Migrations.DefaultAccountKeepsForeignKeys` | src/_migrations.py:49-53 | seeding never breaks an image's reference to its account |
| `Migrations.SetupTables` | src/_migrations.py:7-42 | foreign keys on; the schema tables are added to those that exist; no account or image row changes |
| `Migrations.SetupDefaultAccount` | src/_migrations.py:45-54 | the account table becomes `WithDefaultAccount` of the old one; nothing else changes |
| `Main.DraftRow` | src/main.py:26-28 | definition, no contract: the row `direct_upload` inserts, with no name, signed URLs off, draft on, and the path's account |
| `Main.DirectRow` | src/main.py:114-116 | definition, no contract: the row `upload_directly` inserts, named with the full file name, signed URLs off, draft off |
| `Main.UploadTasks` | src/main.py:53-55 | definition, no contract: the save then the conversion of `storage/filename`, in that order (also src/main.py:119-121) |
| `Main.RunTask` | src/main.py:60 | definition, no contract: one deferred step after the response, `AfterSave` for a save and `AfterConvert` for a conversion (also src/main.py:135) |
| `Main.DirectUploadMatchesTwoSteps` | src/main.py:112-125 | the single-call upload fails in the same cases as a slot request, and ends in the same row as a slot request followed by an upload: published, stem-named, same time and account |
| `Main.UploadThenServe` | src/main.py:53-71 | uploading `cat.png`-like names to a draft and running the two queued steps makes the image visible to its account, served as the WebP of exactly the uploaded bytes |
| `Main.CatPngNames` | src/utils.py:19-24 | `cat.png` has extension `.png` under both libraries and is stored as `cat` |
| `Main.Server.Startup` | src/main.py:140-145 | opens the configured database, switches foreign keys on, creates the schema, and seeds the default account; the table invariants hold if they held in the opened file |
| `Main.Server.DirectUpload` | src/main.py:23-38 | on success, exactly one new row under the fresh id: unnamed, draft, signed URLs off, the path's account; the result is the id and `/cloudflare/<id>`; on an integrity error the table is unchanged; no blob or queued step is touched |
| `Main.Server.UploadImage` | src/main.py:41-60 | 404, with table and queue unchanged, unless the id is a draft; otherwise the row is published as `FilenameWithoutExt(filename)` with no account check, and the save then the conversion of `storage/filename` are queued; after a success the id is no longer a draft, so any second upload to it answers 404 |
| `Main.Server.UploadDirectly` | src/main.py:105-135 | on success, one new published row under the id, renamed to the stem, with the save then the conversion queued; on an integrity error nothing changes and nothing is queued |
| `Main.Server.GetImage` | src/main.py:63-77 | no response exactly when no published row of that id and account exists; content exactly when such a row has a name whose `<storage>/<name>.webp` file exists, and then it is that file with type `image/webp`; otherwise the exception the handler raises, never the `TypeError` of a nameless row while the table invariants hold |
| `Main.Server.RunNextTask` | src/main.py:53-55 | runs the oldest queued step on the image directory, or does nothing when the queue is empty |

## Left out

- Image decoding and encoding in `convert_to_webp` (src/utils.py:8-9): a converted file is the marker `Webp(source)`, and whether the image library decodes the input is a parameter.
- SQLite itself: query execution, transactions, commits and durability. The tables are maps. The `variant` and `video` tables are created, but their rows are not modelled.
- The HTTP layer: routing, the `uuid` path converter, form parsing, JSON envelopes and CORS. The `uploadURL` returned by `cloudflare_direct_upload` is modelled as its path `/cloudflare/<id>`; resolving it against the hostname with `urljoin` is left out.
- `uuid4()` and the clock: the id and the timestamp are parameters.
- `get_video` and `get_video_iframe`: an experimental video stub with templating and file reads.
- `shutdown`, `uvicorn.run` and logging.
- The real filesystem: the image directory is a map from path string to file. It has no directories, and writes never fail. So with an empty upload file name the model saves the bytes under the storage directory's own path, converts them to `<storage>.webp` and serves that, whereas in the source the save fails on the directory (src/utils.py:15), the conversion never runs, and `cloudflare_get_image` raises `FileNotFoundError`.
- Path normalisation by `pathlib`: joining is string concatenation with '/'. So an absolute file name is appended instead of replacing the directory; repeated and trailing '/' are kept; '.' components are kept (`Join` gives `storage/./x` where `pathlib` gives `storage/x`); and an empty storage directory gives `/x` where `Path("")` is `.` and gives `x`.
- Concurrency: requests run one at a time. Deferred steps from all responses run from one FIFO queue, one at a time, so steps of concurrent responses never interleave differently. The window between publication and conversion is the time the steps wait in the queue.
- The framework's handling of a failing step: a save never fails here, so a queued conversion is never skipped because its save failed.
- What the framework does with the `None` that `cloudflare_get_image` returns: the model stops at `NoResponse`.
- The process exit on a missing HOSTNAME: `LoadConfig` returns no configuration instead.

# Pack catalog service, modelled in Dafny

The modelled system is a small file-sharing catalog service (`backend/app.py`,
a Flask application). It lists downloadable "packs" (sticker and ringtone
bundles), accepts uploads that create new packs, and counts downloads per
pack. Its state is two JSON documents: the pack collection (`packs.json`) and
a map from pack id to download count (`dl_counts.json`).

The model keeps that state in memory and leaves out HTTP and the filesystem:

- `wrappers.dfy` — `Option` and `Result`.
- `pytext.dfy` (module `PyText`) — the Python string operations the service
  relies on: `str.strip()` with Python's whitespace set, `str.rfind`,
  `str.replace(pat, "")`, and `str(n)` for a non-negative integer, each with
  its partner (the padding characterisation of `strip`, the `rfind` append
  law, the leftmost-occurrence law of `replace` together with "no occurrence,
  no change", which between them fix its result for every input, and a
  decimal parser that inverts `str(n)`).
- `purepaths.dfy` (module `PurePaths`) — `PurePosixPath(s).name` and
  `.suffix`, which give an uploaded file its extension.
- `packs.dfy` (module `Packs`) — the request logic on values: the pack
  record, the two seed records, first-match lookup (`find_pack`, a loop with
  an early return, written as a method), the catalog annotation loop, upload
  intake (validation, file name, thumbnail URL, size label, new record),
  counting, and the download dispatch decision.
- `store.dfy` (module `CatalogStore`) — class `Store` with the two
  documents as fields (`packDoc: Option<seq<Pack>>`, where `None` means no
  pack document exists, and `counts: map<string, nat>`) and the handlers
  `LoadPacks`, `SavePacks`, `Find`, `Catalog`, `Upload` and `Download`. Each
  one states its new state in terms of the old one.

Behaviour of the code that the model follows exactly:

- Every handler that loads packs seeds a missing pack document first. A
  refused upload never loads, so it leaves a missing document missing.
- A category or description field that is present but blank strips to "".
  The "stickers" default applies only when the category field is absent.
- A file part counts as supplied only when its filename is non-empty. This is
  the truth value of the framework's upload object; an empty file input is
  therefore treated like a missing one.
- The download count is raised and saved before the record's first file URL
  is read. A record with no file URL still gets counted, and then the request
  fails (`ServerError`).
- Dispatch removes every occurrence of `/uploads/` from a local file URL,
  not only the leading one (`DispatchRemovesInnerPrefix`).

Generated ids (`p`, the clock's whole seconds,
six hex characters of a random UUID) are not guaranteed to be unique, so the
model takes the id as a parameter and proves nothing about uniqueness.
`NewestRecordFoundFirst` shows what happens when ids repeat: the newest
record wins a lookup.

## Model

| member | source | states |
|---|---|---|
| `PyText.Strip` | backend/app.py:66-68 | the stripped form text is empty exactly when every character is Python whitespace; a non-empty result starts and ends with a non-whitespace character |
| `PyText.StripPadded` | backend/app.py:66-68 | stripping removes exactly the surrounding whitespace: whitespace + core + whitespace strips to the core, which with Strip's contract fixes the result for every input |
| `PyText.RFind` | backend/app.py:76 | `rfind` gives -1 exactly when the character is absent, and otherwise an index holding it with no later occurrence |
| `PyText.RemoveAll` | backend/app.py:123 | `replace(pat, "")` never lengthens the string and leaves a string without an occurrence of the pattern unchanged |
| `PyText.RemoveFirst` | backend/app.py:123 | `replace(pat, "")` removes the leftmost occurrence and carries on after it: when `a` holds no occurrence starting inside it, `a + pat + b` becomes `a` followed by the removal applied to `b`; with the law above this fixes the result for every input |
| `PyText.NatToString` | backend/app.py:95 | `str(n)` is a non-empty run of decimal digits with no leading zero unless n is 0 |
| `PyText.ParseNatToString` | backend/app.py:95 | reading back the digits `str(n)` writes gives n again |
| `PurePaths.Name` | backend/app.py:76 | the path's name holds no '/' and is never "." |
| `PurePaths.NameAfterDirectory` | backend/app.py:76 | directories in front of a proper name do not change the name |
| `PurePaths.NameIgnoresDotComponent` | backend/app.py:76 | a trailing "." component does not change the name |
| `PurePaths.NameOfDot` | backend/app.py:76 | the path "." has no name |
| `PurePaths.NameIgnoresTrailingSlash` | backend/app.py:76 | a trailing '/' does not change the name |
| `PurePaths.Suffix` | backend/app.py:76 | the suffix is "" or a '.' followed by at least one character, none of them '.' or '/', and it is a proper ending of the name |
| `PurePaths.SuffixAfterDirectory` | backend/app.py:76 | directories in front of a proper name do not change its suffix |
| `PurePaths.SuffixOfStemAndExtension` | backend/app.py:76-77 | a non-empty stem without '/' followed by an extension of suffix form has exactly that extension as its suffix, whatever dots the stem holds |
| `PurePaths.NoSuffixAtEdgeDots` | backend/app.py:76 | a name whose only '.' is its first character, or whose last character is '.', has no suffix |
| `Packs.Seed` | backend/app.py:24-27 | the seed is exactly two records, `p1` then `p2`, each with one file URL and a download count of 0 |
| `Packs.Loaded` | backend/app.py:22-30 | the working collection is the stored one, or the seed when no pack document exists |
| `Packs.SeedLookup` | backend/app.py:23-29 | the seed holds record `p1` first and record `p2` second, and looking up each id finds it |
| `Packs.Lookup` | backend/app.py:35-39 | the lookup finds nothing exactly when no record has the id; a found record has the id, belongs to the collection, and no earlier record has the id |
| `Packs.FirstIndex` | backend/app.py:35-39 | the first index whose record has the id, or -1 exactly when no record has it |
| `Packs.FindPack` | backend/app.py:35-39 | the loop returns the first record with the id, and none exactly when no record has it |
| `Packs.CountOf` | backend/app.py:61 | a pack's download count is its entry in the count map, or 0 when the map has none (the same default the download handler starts from, backend/app.py:118) |
| `Packs.Annotate` | backend/app.py:58-62 | the listing has the same records in the same order, each with its count from the map, or 0 when the map has no entry |
| `Packs.FormText` | backend/app.py:66-68 | a form field's text (the value, or the default when the field is absent) strips to "" exactly when it is all whitespace; otherwise it starts and ends with a non-whitespace character |
| `Packs.EmptyFilePartIsMissing` | backend/app.py:72 | a file part with an empty filename counts as not supplied: the upload is refused, and a thumbnail part gets the placeholder (backend/app.py:80) |
| `Packs.DestFile` | backend/app.py:77 | the saved file's name is the pack id followed by an extension of suffix form |
| `Packs.ThumbFile` | backend/app.py:82 | the saved thumbnail's name is the pack id, then `-thumb`, then an extension of suffix form |
| `Packs.SizeLabel` | backend/app.py:95 | the size label is a run of decimal digits followed by ` KB` |
| `Packs.ExtensionOr` | backend/app.py:76-81 | a saved upload's extension (`.bin` for the file, `.png` for the thumbnail as fallback) has suffix form; it is the original suffix whenever there is one, and the fallback otherwise |
| `Packs.ThumbUrl` | backend/app.py:80-86 | without a supplied thumbnail the URL is the shared placeholder; with one it is the saved thumbnail under `/uploads/` |
| `Packs.ThumbUrlNamesSavedThumb` | backend/app.py:81-84 | a supplied thumbnail's URL names `<pid>-thumb<ext>`, and its suffix is the thumbnail's own extension or `.png` |
| `Packs.SizeLabelRoundTrip` | backend/app.py:95 | the size label reads back as the number of whole kilobytes k, with k*1024 <= size < k*1024 + 1024 |
| `Packs.Intake` | backend/app.py:66-97 | the upload is refused, with the fixed message, exactly when the title is all whitespace or no file is supplied; otherwise the new record has the given id, the stripped title, the stripped category and description, one file `/uploads/<pid><ext>`, the thumbnail URL, the size label and downloads 0 |
| `Packs.FormTextDefaults` | backend/app.py:66-68 | a present field is stripped; an absent category becomes "stickers" and an absent description "" |
| `Packs.PackId` | backend/app.py:75 | a generated id starts with 'p' and holds no '/' when the hex part holds none |
| `Packs.DestFileKeepsExtension` | backend/app.py:76-77 | the saved file `<pid><ext>` has the original file's suffix, or `.bin` when it had none |
| `Packs.UploadUrlName` | backend/app.py:94 | a URL under `/uploads/` has the saved file's name and suffix |
| `Packs.Bumped` | backend/app.py:117-118 | one download raises the id's count by one, starting from 0, adds the id to the map, and leaves every other count alone |
| `Packs.DownloadsAddUp` | backend/app.py:117-119 | n downloads of one id raise its count by exactly n and change no other count |
| `Packs.DispatchTarget` | backend/app.py:121-125 | a URL is redirected to, unchanged, exactly when it does not start with `/uploads/`; otherwise the file sent is the URL with every `/uploads/` removed, which is the same removal applied to the rest of the URL after its leading prefix, and no longer than that rest |
| `Packs.DispatchFiles` | backend/app.py:121 | the download fails exactly when the record has no file URL, is never a not-found, and otherwise is the dispatch of the record's first file URL |
| `Packs.DispatchUploadedName` | backend/app.py:122-124 | `/uploads/<name>` with a name free of '/' sends exactly that name |
| `Packs.DispatchRemovesInnerPrefix` | backend/app.py:123 | an instance of the `RemoveFirst` law: for names `a` and `b` free of '/', `/uploads/<a>/uploads/<b>` sends `<a><b>`, the inner `/uploads/` removed as well as the leading one |
| `Packs.UploadedPackSendsItsFile` | backend/app.py:94 | downloading an uploaded record sends the very file the upload saved, `<pid><ext>` |
| `Packs.HasFilesDownloadSucceeds` | backend/app.py:121-125 | in a collection whose records all have a file URL, a found record's download is a file send or a redirect, never a failure |
| `CatalogStore.Store.constructor` | backend/app.py:15-16 | the store starts from the given documents |
| `CatalogStore.Store.LoadPacks` | backend/app.py:22-30 | loading returns the stored collection, or writes and returns the seed when no pack document exists |
| `CatalogStore.Store.SavePacks` | backend/app.py:32-33 | saving replaces the whole pack document |
| `CatalogStore.Store.Find` | backend/app.py:35-39 | the lookup runs over the loaded collection and returns its first record with the id |
| `CatalogStore.Store.Catalog` | backend/app.py:57-62 | the listing is the loaded collection in order, with each record's count or 0; the count map is unchanged and the pack document only gains the seed if it was missing |
| `CatalogStore.Store.Upload` | backend/app.py:65-102 | a refused upload leaves the pack document as it was; an accepted one makes it the new record followed by every earlier record, in order |
| `CatalogStore.Store.Download` | backend/app.py:112-125 | an unknown id is not found and changes no count; a known id's count goes up by one, every other count is kept, and the reply is the dispatch of the record's files |
| `CatalogStore.NewestRecordFoundFirst` | backend/app.py:99-100 | a record put at the front is the one a lookup of its id finds, even when an older record has the same id |

## Left out

- HTTP routing, status codes, JSON responses, `send_file`, `redirect` and `abort`: framework calls. Replies are the `Reply` datatype instead.
- Reading and writing the JSON documents, saving uploaded files, creating the upload directory and `os.path.getsize`. The documents are the store's fields. The saved file's size is the byte size carried by the file part.
- Documents that are not well formed: malformed JSON, records without an `id` or `files` key, and counts that are not non-negative integers. The model's types rule them out.
- The clock and the random UUID behind the generated id. `PackId` models only the id's format; the handlers take the id as a parameter.
- `static_proxy` and `serve_uploads` (backend/app.py:48-54 and 104-109): they only serve existing files by path.
- Environment and port configuration (backend/app.py:9-16) and `app.run`.
- Lost updates between concurrent requests: requests run one at a time here.
- The record's own `downloads` field after creation: the code never updates it.
- Python's `int(...)` conversion of the clock, and Unicode whitespace beyond the current character database, which `IsSpace` fixes to Python's list.
- File names are read with POSIX path rules (`PurePosixPath`): on a Windows host `Path` also treats a backslash as a separator, which the model does not follow.
- PurePaths.Suffix: follows `pathlib` as of Python 3.13. From Python 3.14 a name ending in a single '.' has the suffix "." (so an upload `clip.` is saved as `<pid>.`, not `<pid>.bin`); `NoSuffixAtEdgeDots` and the `.bin`/`.png` fallbacks for such names hold only up to 3.13.
- Packs.Annotate: builds a new listing rather than adding `_dl` to each loaded record in place. The loaded list is discarded after the reply, so nothing else observes the difference.

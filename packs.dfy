/** Pack records and the request logic of the catalog service, as values:
    the seed collection, lookup by id, the catalog listing, upload intake,
    download counting and the download dispatch decision. */
module Packs {
  import opened Wrappers
  import opened PyText
  import opened PurePaths

  /** One record of the pack document; the fields are its JSON keys. */
  datatype Pack = Pack(
    id: string,
    cat: string,
    title: string,
    desc: string,
    thumb: string,
    files: seq<string>,
    size: string,
    downloads: int)

  /** A record as the catalog lists it, with its download count (`_dl`). */
  datatype Listed = Listed(pack: Pack, dl: nat)

  /** A file part of the upload form. It counts as supplied only when its
      filename is non-empty (the truth value of the upload object); `size` is
      the byte size of its payload, which is the size of the saved file. */
  datatype FilePart = FilePart(filename: string, size: nat)

  /** The upload form: each text field and file part may be missing. */
  datatype UploadForm = UploadForm(
    title: Option<string>,
    category: Option<string>,
    description: Option<string>,
    file: Option<FilePart>,
    thumb: Option<FilePart>)

  /** What a download request answers. */
  datatype Reply =
    | NotFound                // 404 with {"error": "not found"}
    | SendUpload(name: string) // the name joined to the upload directory, as an attachment
    | Redirect(url: string)   // a redirect to the URL
    | ServerError             // the record has no file URL: indexing it fails

  const UploadPrefix: string := "/uploads/"
  const DefaultThumb: string := "/uploads/default.png"
  const UploadRefused: string := "title and file required"

  // ---- Seeding ----

  /** The collection written when no pack document exists yet. */
  function Seed(): (r: seq<Pack>)
    ensures |r| == 2 && r[0].id == "p1" && r[1].id == "p2"
    ensures forall i :: 0 <= i < |r| ==> r[i].downloads == 0 && |r[i].files| == 1
  {
    [ Pack("p1", "stickers", "Nollywood Meme Pack", "30 reaction stickers from Nollywood scenes.",
           DefaultThumb, ["/uploads/sample1.zip"], "1.2 MB", 0),
      Pack("p2", "ringtones", "Afrobeats Short Clips", "10 short royalty-free beats for ringtones.",
           DefaultThumb, ["/uploads/sample2.mp3"], "3.4 MB", 0) ]
  }

  /** The collection every request works on: the stored one, or the seed
      when there is no pack document. */
  function Loaded(doc: Option<seq<Pack>>): (ps: seq<Pack>)
    ensures doc.None? ==> ps == Seed()
    ensures doc.Some? ==> ps == doc.value
  {
    doc.GetOr(Seed())
  }

  // ---- Lookup ----

  /** The index of the first record whose id is `id`, or -1 if none has it. */
  function FirstIndex(ps: seq<Pack>, id: string): (r: int)
    ensures -1 <= r < |ps|
    ensures r == -1 <==> forall i :: 0 <= i < |ps| ==> ps[i].id != id
    ensures 0 <= r ==> ps[r].id == id && forall j :: 0 <= j < r ==> ps[j].id != id
  {
    if ps == [] then -1
    else if ps[0].id == id then 0
    else
      var r := FirstIndex(ps[1..], id);
      if r < 0 then -1 else r + 1
  }

  /** The first record whose id is `id`. */
  function Lookup(ps: seq<Pack>, id: string): (r: Option<Pack>)
    ensures r.None? <==> forall i :: 0 <= i < |ps| ==> ps[i].id != id
    ensures r.Some? ==> r.value.id == id && r.value in ps
    ensures r.Some? ==> exists i :: 0 <= i < |ps| && ps[i] == r.value
                                    && forall j :: 0 <= j < i ==> ps[j].id != id
  {
    var i := FirstIndex(ps, id);
    if i < 0 then None else Some(ps[i])
  }

  /** Linear scan returning the first record with the id, as `find_pack` does. */
  method FindPack(ps: seq<Pack>, id: string) returns (r: Option<Pack>)
    ensures r == Lookup(ps, id)
    ensures r.None? <==> forall i :: 0 <= i < |ps| ==> ps[i].id != id
    ensures r.Some? ==> r.value.id == id && r.value in ps
  {
    var i := 0;
    while i < |ps|
      invariant 0 <= i <= |ps|
      invariant forall j :: 0 <= j < i ==> ps[j].id != id
    {
      if ps[i].id == id {
        return Some(ps[i]);
      }
      i := i + 1;
    }
    return None;
  }

  // ---- Catalog query ----

  /** The download count of `id`: its entry, or 0 when it has none. */
  function CountOf(counts: map<string, nat>, id: string): (n: nat)
    ensures id in counts ==> n == counts[id]
    ensures id !in counts ==> n == 0
  {
    if id in counts then counts[id] else 0
  }

  /** Each record paired with its download count, in the collection's order. */
  method Annotate(ps: seq<Pack>, counts: map<string, nat>) returns (listing: seq<Listed>)
    ensures |listing| == |ps|
    ensures forall i :: 0 <= i < |ps| ==>
              listing[i].pack == ps[i] && listing[i].dl == CountOf(counts, ps[i].id)
  {
    listing := [];
    for i := 0 to |ps|
      invariant |listing| == i
      invariant forall j :: 0 <= j < i ==>
                  listing[j].pack == ps[j] && listing[j].dl == CountOf(counts, ps[j].id)
    {
      listing := listing + [Listed(ps[i], CountOf(counts, ps[i].id))];
    }
  }

  // ---- Upload intake ----

  /** The file part is there and has a filename. */
  predicate Supplied(f: Option<FilePart>) {
    f.Some? && f.value.filename != ""
  }

  /** A text field of the form with its default, whitespace-stripped. */
  function FormText(field: Option<string>, default: string): (text: string)
    ensures text == [] <==> AllSpace(field.GetOr(default))
    ensures text != [] ==> !IsSpace(text[0]) && !IsSpace(text[|text| - 1])
  {
    Strip(field.GetOr(default))
  }

  /** `Path(filename).suffix or fallback`: the extension a saved upload gets. */
  function ExtensionOr(filename: string, fallback: string): (ext: string)
    requires IsSuffixForm(fallback)
    ensures IsSuffixForm(ext)
    ensures Suffix(filename) != "" ==> ext == Suffix(filename)
    ensures Suffix(filename) == "" ==> ext == fallback
  {
    var s := Suffix(filename);
    if s == "" then fallback else s
  }

  /** The extension of the saved primary file; ".bin" when there is no suffix. */
  function FileExtension(filename: string): string {
    ExtensionOr(filename, ".bin")
  }

  /** The extension of the saved thumbnail; ".png" when there is no suffix. */
  function ThumbExtension(filename: string): string {
    ExtensionOr(filename, ".png")
  }

  /** The name the primary file is saved under in the upload directory. */
  function DestFile(pid: string, filename: string): (name: string)
    ensures pid <= name && IsSuffixForm(name[|pid|..])
  {
    pid + FileExtension(filename)
  }

  /** The name a supplied thumbnail is saved under in the upload directory. */
  function ThumbFile(pid: string, filename: string): (name: string)
    ensures pid + "-thumb" <= name && IsSuffixForm(name[|pid| + 6..])
  {
    pid + "-thumb" + ThumbExtension(filename)
  }

  /** An empty file input counts as missing: an upload whose file part has no
      filename is refused, and a thumbnail part without one gets the shared
      placeholder, just as when the part is absent. */
  lemma EmptyFilePartIsMissing(form: UploadForm, pid: string)
    ensures form.file.Some? && form.file.value.filename == "" ==> Intake(form, pid).Err?
    ensures form.thumb.Some? && form.thumb.value.filename == "" ==> ThumbUrl(pid, form.thumb) == DefaultThumb
  {
  }

  /** The thumbnail URL of a new record: the saved thumbnail, or the shared
      placeholder when none is supplied. */
  function ThumbUrl(pid: string, thumb: Option<FilePart>): (url: string)
    ensures !Supplied(thumb) ==> url == DefaultThumb
    ensures Supplied(thumb) ==> url == UploadPrefix + ThumbFile(pid, thumb.value.filename)
  {
    if Supplied(thumb) then UploadPrefix + ThumbFile(pid, thumb.value.filename)
    else DefaultThumb
  }

  /** The size label: whole kilobytes (rounded down), then " KB". */
  function SizeLabel(bytes: nat): (text: string)
    ensures |text| >= 4 && text[|text| - 3..] == " KB" && AllDigits(text[..|text| - 3])
  {
    NatToString(bytes / 1024) + " KB"
  }

  /** Reads a size label back: the kilobyte count before " KB". */
  function ParseSizeLabel(text: string): Option<nat> {
    if |text| >= 3 && text[|text| - 3..] == " KB" then ParseNat(text[..|text| - 3])
    else None
  }

  /** A size label names the number of whole kilobytes in the file. */
  lemma SizeLabelRoundTrip(bytes: nat)
    ensures ParseSizeLabel(SizeLabel(bytes)).Some?
    ensures var kb := ParseSizeLabel(SizeLabel(bytes)).value;
            kb * 1024 <= bytes < kb * 1024 + 1024
  {
    var digits := NatToString(bytes / 1024);
    var text := SizeLabel(bytes);
    assert text[..|text| - 3] == digits;
    assert text[|text| - 3..] == " KB";
    ParseNatToString(bytes / 1024);
  }

  /** The upload request: refused unless the stripped title is non-empty and
      a file is supplied; otherwise the new record for the id `pid`. */
  function Intake(form: UploadForm, pid: string): (r: Result<Pack, string>)
    ensures r.Err? <==> AllSpace(form.title.GetOr("")) || !Supplied(form.file)
    ensures r.Err? ==> r.error == UploadRefused
    ensures r.Ok? ==> && r.value.id == pid
                      && r.value.title == Strip(form.title.value) && r.value.title != []
                      && r.value.cat == FormText(form.category, "stickers")
                      && r.value.desc == FormText(form.description, "")
                      && r.value.files == [UploadPrefix + DestFile(pid, form.file.value.filename)]
                      && r.value.thumb == ThumbUrl(pid, form.thumb)
                      && r.value.size == SizeLabel(form.file.value.size)
                      && r.value.downloads == 0
  {
    var title := FormText(form.title, "");
    if title == "" || !Supplied(form.file) then Err(UploadRefused)
    else
      var file := form.file.value;
      Ok(Pack(pid,
              FormText(form.category, "stickers"),
              title,
              FormText(form.description, ""),
              ThumbUrl(pid, form.thumb),
              [UploadPrefix + DestFile(pid, file.filename)],
              SizeLabel(file.size),
              0))
  }

  /** The generated id: "p", the whole seconds of the clock, then the first six
      characters of a random UUID's hex form. */
  function PackId(seconds: nat, uuidHex: string): (pid: string)
    ensures pid != [] && pid[0] == 'p'
    ensures '/' !in uuidHex ==> '/' !in pid
  {
    var hex := if |uuidHex| <= 6 then uuidHex else uuidHex[..6];
    var pid := "p" + NatToString(seconds) + hex;
    assert '/' !in NatToString(seconds) by {
      var d := NatToString(seconds);
      assert forall k :: 0 <= k < |d| ==> IsDigit(d[k]);
    }
    pid
  }

  /** A form field that is present is stripped; an absent one takes its
      default, which the service chose without surrounding whitespace. */
  lemma FormTextDefaults(v: string)
    ensures FormText(Some(v), "stickers") == Strip(v)
    ensures FormText(None, "stickers") == "stickers"
    ensures FormText(None, "") == ""
  {
    var d := "stickers";
    assert !IsSpace(d[0]) && !IsSpace(d[|d| - 1]);
    StripPadded("", d, "");
    assert "" + d + "" == d;
    StripPadded("", "", "");
  }

  /** The saved file keeps the original extension, or gets ".bin". */
  lemma DestFileKeepsExtension(pid: string, filename: string)
    requires pid != [] && '/' !in pid
    ensures Suffix(DestFile(pid, filename)) == FileExtension(filename)
    ensures Suffix(filename) == "" ==> Suffix(DestFile(pid, filename)) == ".bin"
  {
    SuffixOfStemAndExtension(pid, FileExtension(filename));
  }

  /** A URL in the upload directory has the file's name and suffix. */
  lemma UploadUrlName(file: string)
    requires '/' !in file && file != "" && file != "."
    ensures Name(UploadPrefix + file) == file
    ensures Suffix(UploadPrefix + file) == Suffix(file)
  {
    assert UploadPrefix + file == "/uploads" + "/" + file;
    NameAfterDirectory("/uploads", file);
    NameOfName(file);
  }

  /** A supplied thumbnail's URL names the file saved for it, whose suffix
      is the thumbnail's own extension, or ".png". */
  lemma ThumbUrlNamesSavedThumb(pid: string, thumb: FilePart)
    requires '/' !in pid && thumb.filename != ""
    ensures Name(ThumbUrl(pid, Some(thumb))) == ThumbFile(pid, thumb.filename)
    ensures Suffix(ThumbUrl(pid, Some(thumb))) == ThumbExtension(thumb.filename)
  {
    var ext := ThumbExtension(thumb.filename);
    var stem := pid + "-thumb";
    assert '/' !in stem + ext by {
      assert '/' !in "-thumb";
      NotInConcat(pid, "-thumb", '/');
      NotInConcat(stem, ext, '/');
    }
    assert ThumbUrl(pid, Some(thumb)) == UploadPrefix + (stem + ext);
    UploadUrlName(stem + ext);
    SuffixOfStemAndExtension(stem, ext);
  }

  // ---- Download counting and dispatch ----

  /** The count map after one download of `id`: its count goes up by one,
      starting from 0. */
  function Bumped(counts: map<string, nat>, id: string): (c: map<string, nat>)
    ensures c.Keys == counts.Keys + {id}
    ensures CountOf(c, id) == CountOf(counts, id) + 1
    ensures forall k :: k != id ==> CountOf(c, k) == CountOf(counts, k)
  {
    counts[id := CountOf(counts, id) + 1]
  }

  /** The count map after `n` downloads of `id`. */
  function BumpedTimes(counts: map<string, nat>, id: string, n: nat): map<string, nat> {
    if n == 0 then counts else Bumped(BumpedTimes(counts, id, n - 1), id)
  }

  /** `n` downloads of one id raise its count by exactly `n` and leave every
      other count alone. */
  lemma {:induction false} DownloadsAddUp(counts: map<string, nat>, id: string, n: nat)
    ensures CountOf(BumpedTimes(counts, id, n), id) == CountOf(counts, id) + n
    ensures forall k :: k != id ==> CountOf(BumpedTimes(counts, id, n), k) == CountOf(counts, k)
  {
    if n > 0 {
      DownloadsAddUp(counts, id, n - 1);
    }
  }

  /** Where a download of a file URL goes: a URL under the upload prefix is
      served from the upload directory with every occurrence of the prefix
      removed from it; any other URL is redirected to unchanged. */
  function DispatchTarget(url: string): (r: Reply)
    ensures r.SendUpload? || r.Redirect?
    ensures r.Redirect? <==> !(UploadPrefix <= url)
    ensures r.Redirect? ==> r.url == url
    ensures r.SendUpload? ==> |r.name| <= |url| - |UploadPrefix|
    ensures r.SendUpload? ==> r.name == RemoveAll(url, UploadPrefix)
                                    == RemoveAll(url[|UploadPrefix|..], UploadPrefix)
  {
    if UploadPrefix <= url then
      var r := RemoveAll(url, UploadPrefix);
      assert url[..|UploadPrefix|] == UploadPrefix;
      assert r == RemoveAll(url[|UploadPrefix|..], UploadPrefix);
      SendUpload(r)
    else Redirect(url)
  }

  /** A record's download goes by its first file URL; a record without one
      makes the request fail. */
  function DispatchFiles(files: seq<string>): (r: Reply)
    ensures !r.NotFound?
    ensures r.ServerError? <==> files == []
    ensures files != [] ==> r == DispatchTarget(files[0])
  {
    if files == [] then ServerError else DispatchTarget(files[0])
  }

  /** A URL made of the prefix and a file name without '/' sends that file. */
  lemma DispatchUploadedName(name: string)
    requires '/' !in name
    ensures DispatchTarget(UploadPrefix + name) == SendUpload(name)
  {
    var url := UploadPrefix + name;
    assert UploadPrefix <= url;
    assert url[|UploadPrefix|..] == name;
    NoSlashNoOccurrence(name, UploadPrefix);
  }

  /** `replace` removes every occurrence of the prefix, not only the leading
      one: a nested upload path `/uploads/a/uploads/b` sends `ab`, the inner
      "/uploads/" removed too (an instance of `RemoveFirst`). */
  lemma DispatchRemovesInnerPrefix(a: string, b: string)
    requires '/' !in a && '/' !in b
    ensures DispatchTarget(UploadPrefix + a + UploadPrefix + b) == SendUpload(a + b)
  {
    var rest := a + UploadPrefix + b;
    var url := UploadPrefix + rest;
    assert url == UploadPrefix + a + UploadPrefix + b;
    assert url[|UploadPrefix|..] == rest;
    assert UploadPrefix[0] == '/';
    forall i | 0 <= i < |a| ensures !(UploadPrefix <= rest[i..]) {
      assert rest[i..][0] == a[i];
    }
    RemoveFirst(a, UploadPrefix, b);
    NoSlashNoOccurrence(b, UploadPrefix);
  }

  /** Downloading the record of an upload sends the primary file saved for it. */
  lemma UploadedPackSendsItsFile(form: UploadForm, pid: string)
    requires !AllSpace(form.title.GetOr("")) && Supplied(form.file)
    requires '/' !in pid
    ensures Intake(form, pid).Ok?
    ensures DispatchFiles(Intake(form, pid).value.files)
            == SendUpload(DestFile(pid, form.file.value.filename))
  {
    var ext := FileExtension(form.file.value.filename);
    var d := DestFile(pid, form.file.value.filename);
    NotInConcat(pid, ext, '/');
    DispatchUploadedName(d);
  }

  /** The seed's ids find its two records, in order. */
  lemma SeedLookup()
    ensures Lookup(Seed(), "p1") == Some(Seed()[0])
    ensures Lookup(Seed(), "p2") == Some(Seed()[1])
  {
    var seed := Seed();
    assert FirstIndex(seed, "p1") == 0;
    assert seed[0].id[1] != "p2"[1];
    assert FirstIndex(seed, "p2") == 1;
  }

  /** Every record has at least one file URL. */
  predicate HasFiles(ps: seq<Pack>) {
    forall i :: 0 <= i < |ps| ==> ps[i].files != []
  }

  /** In a collection whose records all have a file URL, downloading a known
      id never fails for want of one. */
  lemma HasFilesDownloadSucceeds(ps: seq<Pack>, id: string)
    requires HasFiles(ps) && Lookup(ps, id).Some?
    ensures DispatchFiles(Lookup(ps, id).value.files).SendUpload?
            || DispatchFiles(Lookup(ps, id).value.files).Redirect?
  {
  }
}

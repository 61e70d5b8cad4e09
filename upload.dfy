/**
 * The file handlers (api/handler/upload.go): the extension of a file name,
 * the category map, the extension-to-Content-Type switch of the image
 * handlers, the name an upload is stored under, the directory listing filter
 * and the in-memory writer. The file system is a parameter: a directory
 * listing is a sequence of entries, `os.Stat` a function of the path.
 */
module Upload {
  import opened Wrappers
  import opened Text

  predicate IsSuffix(t: string, s: string) {
    |t| <= |s| && s[|s| - |t|..] == t
  }

  /** Neither a '.' nor a '/' occurs in `s` at or after index `from`. */
  predicate PlainFrom(s: string, from: nat) {
    forall k :: from <= k < |s| ==> s[k] != '.' && s[k] != '/'
  }

  /** Every '.' of `s` has a '/' somewhere after it. */
  predicate NoExtension(s: string) {
    forall k :: 0 <= k < |s| && s[k] == '.' ==> exists j :: k < j < |s| && s[j] == '/'
  }

  /** The shape of an extension: a '.' followed by characters that are neither '.' nor '/'. */
  predicate ExtShape(e: string) {
    |e| >= 1 && e[0] == '.' && PlainFrom(e, 1)
  }

  // ---------------------------------------------------------------------------
  // filepath.Ext
  // ---------------------------------------------------------------------------

  /** The scan of `filepath.Ext` from index `i - 1` down to the last '/'. */
  function ExtFrom(path: string, i: nat): (r: string)
    requires i <= |path| && PlainFrom(path, i)
    ensures IsSuffix(r, path)
    ensures r != "" ==> ExtShape(r)
    ensures r == "" ==> NoExtension(path)
    decreases i
  {
    if i == 0 then ""
    else if path[i - 1] == '/' then
      assert forall k :: 0 <= k < |path| && path[k] == '.' ==> k < i - 1;
      ""
    else if path[i - 1] == '.' then path[i - 1..]
    else ExtFrom(path, i - 1)
  }

  /**
   * `filepath.Ext`: the suffix from the last '.' of the final path element,
   * or "" when that element has no '.'.
   */
  function Ext(path: string): (r: string)
    ensures IsSuffix(r, path)
    ensures r != "" ==> ExtShape(r)
    ensures r == "" ==> NoExtension(path)
  {
    ExtFrom(path, |path|)
  }

  /** The contract of `Ext` pins it down: a path ends with an extension-shaped `e` exactly when `e` is its extension. */
  lemma ExtIsSuffix(path: string, e: string)
    requires ExtShape(e)
    ensures Ext(path) == e <==> IsSuffix(e, path)
  {
    if IsSuffix(e, path) {
      assert path[|path| - |e|] == e[0];
    }
  }

  /** Lower-casing keeps '.' and '/' where they are and creates no new ones. */
  lemma LowerCharSeparators(c: char)
    ensures LowerChar(c) == '.' <==> c == '.'
    ensures LowerChar(c) == '/' <==> c == '/'
  {
  }

  lemma {:induction false} ExtFromLower(path: string, i: nat)
    requires i <= |path| && PlainFrom(path, i)
    ensures PlainFrom(ToLower(path), i)
    ensures ExtFrom(ToLower(path), i) == ToLower(ExtFrom(path, i))
    decreases i
  {
    var lp := ToLower(path);
    forall k | i <= k < |path|
      ensures lp[k] != '.' && lp[k] != '/'
    {
      LowerCharSeparators(path[k]);
    }
    if i > 0 {
      LowerCharSeparators(path[i - 1]);
      if path[i - 1] == '.' {
        assert lp[i - 1..] == ToLower(path[i - 1..]);
      } else if path[i - 1] != '/' {
        ExtFromLower(path, i - 1);
      }
    }
  }

  /** Taking the extension and lower-casing commute. */
  lemma ExtLower(path: string)
    ensures Ext(ToLower(path)) == ToLower(Ext(path))
  {
    ExtFromLower(path, |path|);
  }

  // ---------------------------------------------------------------------------
  // CheckType
  // ---------------------------------------------------------------------------

  const ImageExts: seq<string> := [".jpg", ".jpeg", ".png", ".gif"]
  const VideoExts: seq<string> := [".mp4", ".avi", ".mov", ".mkv"]
  const DocumentExts: seq<string> := [".pdf", ".doc", ".docx"]

  /** The category of a file from its lower-cased extension. */
  function CheckType(filename: string): (r: string)
    ensures r in {"image", "video", "document", "unknown"}
    ensures Ext(filename) == "" ==> r == "unknown"
  {
    var ext := ToLower(Ext(filename));
    if ext in ImageExts then "image"
    else if ext in VideoExts then "video"
    else if ext in DocumentExts then "document"
    else "unknown"
  }

  /** Some extension of `exts` ends `s`. */
  predicate EndsWithOneOf(s: string, exts: seq<string>) {
    exists k :: 0 <= k < |exts| && IsSuffix(exts[k], s)
  }

  lemma ExtIn(s: string, exts: seq<string>)
    requires forall k :: 0 <= k < |exts| ==> ExtShape(exts[k])
    ensures Ext(s) in exts <==> EndsWithOneOf(s, exts)
  {
    if Ext(s) in exts {
      var k :| 0 <= k < |exts| && exts[k] == Ext(s);
      ExtIsSuffix(s, exts[k]);
    }
    if EndsWithOneOf(s, exts) {
      var k :| 0 <= k < |exts| && IsSuffix(exts[k], s);
      ExtIsSuffix(s, exts[k]);
    }
  }

  /**
   * The category read off the name directly: "image" when the lower-cased
   * name ends with one of the image extensions, and so on; "unknown" when it
   * ends with none of them (no extension at all included).
   */
  lemma CheckTypeBySuffix(filename: string)
    ensures var lower := ToLower(filename);
      CheckType(filename) ==
        if EndsWithOneOf(lower, ImageExts) then "image"
        else if EndsWithOneOf(lower, VideoExts) then "video"
        else if EndsWithOneOf(lower, DocumentExts) then "document"
        else "unknown"
  {
    ExtLower(filename);
    ExtIn(ToLower(filename), ImageExts);
    ExtIn(ToLower(filename), VideoExts);
    ExtIn(ToLower(filename), DocumentExts);
  }

  /** The category ignores the case of the name. */
  lemma CheckTypeCaseInsensitive(filename: string)
    ensures CheckType(ToLower(filename)) == CheckType(filename)
  {
    ExtLower(filename);
    ToLowerIdempotent(Ext(filename));
  }

  // ---------------------------------------------------------------------------
  // The Content-Type switch of GetImageHandler and GetProfileImageHandler
  // ---------------------------------------------------------------------------

  /** The Content-Type served for an extension, compared case-sensitively; None is the 415 branch. */
  function ContentType(ext: string): (r: Option<string>)
    ensures r.Some? <==> ext in [".jpg", ".jpeg", ".png", ".gif", ".pdf", ".docx"]
    ensures r.Some? ==> IsPrefix("image/", r.value)
  {
    match ext
    case ".jpg" => Some("image/jpeg")
    case ".jpeg" => Some("image/jpeg")
    case ".png" => Some("image/png")
    case ".gif" => Some("image/gif")
    case ".pdf" => Some("image/pdf")
    case ".docx" => Some("image/docx")
    case _ => None
  }

  /** A served file is an image or a document by `CheckType`; no video is ever served. */
  lemma ServedCategory(filename: string)
    requires ContentType(Ext(filename)).Some?
    ensures CheckType(filename) == "image" || CheckType(filename) == "document"
  {
    var e := Ext(filename);
    assert ToLower(e) == e by {
      forall k | 0 <= k < |e|
        ensures ToLower(e)[k] == e[k]
      {
      }
    }
  }

  /** The switch is case-sensitive where `CheckType` is not: "photo.JPG" is an image but is refused with 415. */
  lemma UpperCaseRefused()
    ensures CheckType("photo.JPG") == "image"
    ensures ContentType(Ext("photo.JPG")) == None
  {
    ExtIsSuffix("photo.JPG", ".JPG");
    assert ToLower(".JPG") == ".jpg";
  }

  // ---------------------------------------------------------------------------
  // Serving and downloading
  // ---------------------------------------------------------------------------

  /** What `os.Stat` reports; only a not-exist error stops the handlers. */
  datatype StatResult = Exists | NotExist | OtherError

  datatype Reply =
    | Json(status: int, error: string)
    | ServeFile(path: string, headers: seq<(string, string)>)

  /**
   * GetImageHandler (directory "./uploads/") and GetProfileImageHandler
   * (directory "./uploads/profile_images/"): the file under `dir`, with the
   * Content-Type its extension selects.
   */
  function ServeImage(dir: string, filename: string, stat: string -> StatResult): (r: Reply)
    ensures r.Json? <==> filename == "" || stat(dir + filename) == NotExist || ContentType(Ext(filename)).None?
    ensures r.Json? ==> r.status in {400, 404, 415}
    ensures filename == "" <==> r == Json(400, "Filename is required")
    ensures r.ServeFile? ==> r.path == dir + filename && r.headers == [("Content-Type", ContentType(Ext(filename)).value)]
  {
    if filename == "" then Json(400, "Filename is required")
    else if stat(dir + filename) == NotExist then Json(404, "Image not found")
    else match ContentType(Ext(filename))
      case None => Json(415, "Unsupported image type")
      case Some(t) => ServeFile(dir + filename, [("Content-Type", t)])
  }

  /** An empty name is refused before the file system is consulted. */
  lemma EmptyNameNoStat(dir: string, stat1: string -> StatResult, stat2: string -> StatResult)
    ensures ServeImage(dir, "", stat1) == ServeImage(dir, "", stat2)
    ensures FileDownload("", stat1) == FileDownload("", stat2)
  {
  }

  /** An existing file with an unlisted extension is refused with 415, a missing one with 404 whatever its extension. */
  lemma ServeImageStatusOrder(dir: string, filename: string, stat: string -> StatResult)
    requires filename != ""
    ensures stat(dir + filename) == NotExist ==> ServeImage(dir, filename, stat).status == 404
    ensures stat(dir + filename) != NotExist && ContentType(Ext(filename)).None? ==> ServeImage(dir, filename, stat).status == 415
  {
  }

  /** FileDownloadFileHandler: any existing file of "./uploads/", served as an attachment. */
  function FileDownload(filename: string, stat: string -> StatResult): (r: Reply)
    ensures r.Json? <==> filename == "" || stat("./uploads/" + filename) == NotExist
    ensures r.Json? ==> (r.status == 400 <==> filename == "") && r.status in {400, 404}
    ensures r.ServeFile? ==>
      && r.path == "./uploads/" + filename
      && ("Content-Disposition", "attachment; filename=" + filename) in r.headers
      && ("Content-Type", "application/octet-stream") in r.headers
  {
    if filename == "" then Json(400, "Filename is required")
    else if stat("./uploads/" + filename) == NotExist then Json(404, "File not found")
    else ServeFile("./uploads/" + filename, [
      ("Content-Description", "File Transfer"),
      ("Content-Disposition", "attachment; filename=" + filename),
      ("Content-Type", "application/octet-stream")])
  }

  // ---------------------------------------------------------------------------
  // UploadHandler and UploadHandlerProfile
  // ---------------------------------------------------------------------------

  /** The name an upload is stored under: a fresh UUID followed by the original extension. */
  function UploadName(uuid: string, original: string): (r: string)
    ensures IsPrefix(uuid, r) && IsSuffix(Ext(original), r)
  {
    uuid + Ext(original)
  }

  /** A UUID string holds no '.' and no '/', so the stored name keeps the extension and the category of the original. */
  lemma UploadNameKeepsExtension(uuid: string, original: string)
    requires PlainFrom(uuid, 0)
    ensures Ext(UploadName(uuid, original)) == Ext(original)
    ensures CheckType(UploadName(uuid, original)) == CheckType(original)
  {
    var name := UploadName(uuid, original);
    var e := Ext(original);
    if e != "" {
      ExtIsSuffix(name, e);
    } else {
      assert name == uuid;
      var r := Ext(name);
      if r != "" {
        assert false;
      }
    }
  }

  datatype UploadReply =
    | UploadFailed(status: int, error: string)
    | Uploaded(message: string, filename: string, path: string)

  /**
   * UploadHandler (`storageDir` "uploads") and UploadHandlerProfile
   * ("uploads/profile_images"). `original` is the name of the posted form
   * file (None: no file part), `mkdirOk` whether the directory could be
   * created, `uuid` the fresh UUID and `saveOk` whether saving to a path
   * succeeds. The path is `filepath.Join(storageDir, filename)`, the
   * separator-joined form without the leading "./".
   */
  function UploadFile(storageDir: string, original: Option<string>, mkdirOk: bool, uuid: string, saveOk: string -> bool): (r: UploadReply)
    ensures original.None? <==> r == UploadFailed(400, "No file is uploaded")
    ensures r.UploadFailed? ==> r.status in {400, 500}
    ensures r.Uploaded? <==> original.Some? && mkdirOk && saveOk(storageDir + "/" + UploadName(uuid, original.value))
    ensures r.Uploaded? ==> r.filename == UploadName(uuid, original.value) && r.path == storageDir + "/" + r.filename
  {
    if original.None? then UploadFailed(400, "No file is uploaded")
    else if !mkdirOk then UploadFailed(500, "Failed to create storage directory")
    else
      var filename := UploadName(uuid, original.value);
      var savePath := storageDir + "/" + filename;
      if !saveOk(savePath) then UploadFailed(500, "Failed to save the file")
      else Uploaded("File uploaded successfully", filename, savePath)
  }

  // ---------------------------------------------------------------------------
  // ListImagesHandler
  // ---------------------------------------------------------------------------

  datatype DirEntry = DirEntry(name: string, isDir: bool)

  const ListedExts: seq<string> := [".jpg", ".jpeg", ".png", ".gif", ".pdf"]

  predicate Listed(e: DirEntry) {
    !e.isDir && ToLower(Ext(e.name)) in ListedExts
  }

  /** The names of the entries `keep` accepts, in directory order. */
  function FilterNames(entries: seq<DirEntry>, keep: DirEntry -> bool): (r: seq<string>)
    ensures |r| <= |entries|
  {
    if entries == [] then []
    else
      var last := entries[|entries| - 1];
      FilterNames(entries[..|entries| - 1], keep) + if keep(last) then [last.name] else []
  }

  /** A name is kept exactly when some accepted entry carries it. */
  lemma {:induction false} FilterNamesMembers(entries: seq<DirEntry>, keep: DirEntry -> bool, name: string)
    ensures name in FilterNames(entries, keep) <==> exists k :: 0 <= k < |entries| && entries[k].name == name && keep(entries[k])
  {
    if entries != [] {
      var init, last := entries[..|entries| - 1], entries[|entries| - 1];
      FilterNamesMembers(init, keep, name);
      if name in FilterNames(entries, keep) && name in FilterNames(init, keep) {
        var k :| 0 <= k < |init| && init[k].name == name && keep(init[k]);
        assert entries[k] == init[k];
      }
      if exists k :: 0 <= k < |entries| && entries[k].name == name && keep(entries[k]) {
        var k :| 0 <= k < |entries| && entries[k].name == name && keep(entries[k]);
        if k < |init| {
          assert init[k] == entries[k];
        }
      }
    }
  }

  /** The names of the listed entries, in directory order. */
  function ListedNames(entries: seq<DirEntry>): (r: seq<string>)
    ensures |r| <= |entries|
  {
    FilterNames(entries, Listed)
  }

  /** A name is listed exactly when some non-directory entry carries it with a listed extension. */
  lemma ListedNamesMembers(entries: seq<DirEntry>, name: string)
    ensures name in ListedNames(entries) <==> exists k :: 0 <= k < |entries| && entries[k].name == name && Listed(entries[k])
  {
    FilterNamesMembers(entries, Listed, name);
  }

  /** The listing filter agrees with the categories: images by `CheckType`, and PDF documents. */
  lemma ListedByCategory(e: DirEntry)
    ensures Listed(e) <==> !e.isDir && (CheckType(e.name) == "image" || ToLower(Ext(e.name)) == ".pdf")
  {
  }

  /**
   * The `for _, file := range files` loop: a failed directory read is a 500
   * (`readError`), otherwise the names of the listed entries in order.
   */
  method ListImages(entries: seq<DirEntry>, readError: bool) returns (r: Result<seq<string>, (int, string)>)
    ensures readError <==> r == Failure((500, "Failed to read images directory"))
    ensures r.Success? ==> r.value == ListedNames(entries)
  {
    if readError {
      return Failure((500, "Failed to read images directory"));
    }
    var images: seq<string> := [];
    for i := 0 to |entries|
      invariant images == ListedNames(entries[..i])
    {
      assert entries[..i + 1][..i] == entries[..i];
      if !entries[i].isDir {
        var ext := ToLower(Ext(entries[i].name));
        if ext == ".jpg" || ext == ".jpeg" || ext == ".png" || ext == ".gif" || ext == ".pdf" {
          images := images + [entries[i].name];
        }
      }
    }
    assert entries[..|entries|] == entries;
    return Success(images);
  }

  // ---------------------------------------------------------------------------
  // ObjectWriter
  // ---------------------------------------------------------------------------

  /** The simulated storage writer: everything written is kept in `buffer`. */
  class ObjectWriter {
    var buffer: seq<byte>

    constructor ()
      ensures buffer == []
    {
      buffer := [];
    }

    /** Appends `p`; reports all of it written and no error. */
    method Write(p: seq<byte>) returns (n: nat, err: Option<string>)
      modifies this
      ensures buffer == old(buffer) + p
      ensures n == |p| && err == None
    {
      buffer := buffer + p;
      return |p|, None;
    }
  }
}

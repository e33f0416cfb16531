/** The web app's food administration actions (GrillPizzeriaOrderWebApp,
    Controllers/FoodController.cs): the image-upload rule (lower-cased
    extension from a fixed list, at most 5 MiB), where an accepted image is
    written and which web path the food then records, the rewrite of a web
    path into a file path under the web root, and when an edit or a delete
    removes the stored image. The food service the actions forward to, the
    generated file name and the outcome of the file write are parameters. */
module WebFoodController {
  import opened Wrappers
  import opened Text
  import opened ApiOperationResult

  const AllowedExtensions: seq<string> := [".jpg", ".jpeg", ".png", ".gif"]
  /** `5 * 1024 * 1024` bytes. */
  const MaxImageBytes := 5 * 1024 * 1024
  const ImagesFolder := "images"

  const InvalidRequestMessage := "Invalid Food request"
  const UnsupportedFormatMessage := "Unsupported image format."
  const TooLargeMessage := "File size exceeds 5MB limit."
  const SaveFailedMessage := "Failed to save image."

  /** The uploaded file: its client-side name and its length in bytes. */
  datatype Upload = Upload(fileName: string, length: int)

  // ---- paths -----------------------------------------------------------------

  /** A directory separator: '/' always, plus the platform's own `sep`. */
  predicate IsSeparator(c: char, sep: char) {
    c == '/' || c == sep
  }

  /** `Path.DirectorySeparatorChar`: '/' on Unix, '\\' on Windows. */
  predicate PlatformSeparator(sep: char) {
    sep == '/' || sep == '\\'
  }

  predicate NoSeparators(s: string, sep: char) {
    forall i :: 0 <= i < |s| ==> !IsSeparator(s[i], sep)
  }

  /** The position of the last '.' after the last separator, if any. */
  function LastDot(path: string, sep: char): (r: Option<nat>)
    ensures r.Some? ==> r.value < |path| && path[r.value] == '.'
    ensures r.Some? ==> forall k :: r.value < k < |path| ==> path[k] != '.' && !IsSeparator(path[k], sep)
    ensures r.None? ==> forall k :: 0 <= k < |path| ==> path[k] != '.' || exists j :: k < j < |path| && IsSeparator(path[j], sep)
  {
    if |path| == 0 then None
    else
      var c := path[|path| - 1];
      if c == '.' then Some(|path| - 1)
      else if IsSeparator(c, sep) then None
      else
        var r := LastDot(path[..|path| - 1], sep);
        assert forall k :: 0 <= k < |path| - 1 ==> path[..|path| - 1][k] == path[k];
        r
  }

  /** `Path.GetExtension(path)`: from the last '.' of the file name to the
      end, or empty when the name has no '.' or ends with one. */
  function GetExtension(path: string, sep: char): (r: string)
    ensures r == "" || (|r| >= 2 && |r| <= |path| && r[0] == '.' && path[|path| - |r|..] == r)
    ensures r != "" ==> NoSeparators(r[1..], sep) && '.' !in r[1..]
  {
    match LastDot(path, sep)
    case None => ""
    case Some(i) =>
      if i == |path| - 1 then ""
      else
        var r := path[i..];
        forall k | 0 <= k < |r[1..]| ensures r[1..][k] == path[i + 1 + k] && r[1..][k] != '.' && !IsSeparator(r[1..][k], sep) {
        }
        r
  }

  /** A file name ending in '.' and a last part with no dot and no
      separator has that part, with its dot, as its extension. */
  lemma {:induction false} ExtensionOfName(stem: string, ext: string, sep: char)
    requires '.' !in ext && NoSeparators(ext, sep)
    ensures LastDot(stem + "." + ext, sep) == Some(|stem|)
    ensures |ext| > 0 ==> GetExtension(stem + "." + ext, sep) == "." + ext
    decreases |ext|
  {
    var p := stem + "." + ext;
    if |ext| > 0 {
      var shorter := ext[..|ext| - 1];
      assert p[..|p| - 1] == stem + "." + shorter;
      assert p[|p| - 1] == ext[|ext| - 1];
      ExtensionOfName(stem, shorter, sep);
    }
    assert p[|stem|..] == "." + ext;
  }

  /** A name without a dot has no extension. */
  lemma NoDotNoExtension(path: string, sep: char)
    requires '.' !in path
    ensures GetExtension(path, sep) == ""
  {
  }

  /** A name whose last dot comes before a separator (a dot in a folder
      name) has no extension. */
  lemma DotBeforeSeparator(path: string, sep: char, j: int)
    requires PlatformSeparator(sep)
    requires 0 <= j < |path| && IsSeparator(path[j], sep)
    requires forall k :: j < k < |path| ==> path[k] != '.'
    ensures GetExtension(path, sep) == ""
  {
  }

  /** What `GetExtension` yields for typical names. */
  lemma ExtensionExamples()
    ensures GetExtension("a.JPG", '\\') == ".JPG"
    ensures GetExtension("a.b.gz", '\\') == ".gz"
    ensures GetExtension("a", '\\') == ""
    ensures GetExtension("a.d/b", '\\') == ""
  {
    assert "a" + "." + "JPG" == "a.JPG";
    ExtensionOfName("a", "JPG", '\\');
    assert "a.b" + "." + "gz" == "a.b.gz";
    ExtensionOfName("a.b", "gz", '\\');
    NoDotNoExtension("a", '\\');
    var q := "a.d/b";
    assert IsSeparator(q[3], '\\') && q[4] != '.';
    DotBeforeSeparator(q, '\\', 3);
  }

  /** `Path.IsPathRooted(p)`: a leading separator, or on Windows a drive
      letter followed by ':'. */
  predicate IsRooted(p: string, sep: char) {
    (|p| >= 1 && IsSeparator(p[0], sep)) ||
    (sep == '\\' && |p| >= 2 && ('a' <= p[0] <= 'z' || 'A' <= p[0] <= 'Z') && p[1] == ':')
  }

  /** `Path.Combine(a, b)`: either part alone when the other is empty, `b`
      alone when it is rooted, else the two joined by exactly one separator. */
  function Combine(a: string, b: string, sep: char): (r: string)
    ensures |a| == 0 ==> r == b
    ensures |b| == 0 ==> r == a
    ensures |b| > 0 && IsRooted(b, sep) ==> r == b
    ensures |a| > 0 && |b| > 0 && !IsRooted(b, sep) ==>
      |r| > |a| + |b| - 1 && r[..|a|] == a && r[|r| - |b|..] == b &&
      (r == a + b <==> IsSeparator(a[|a| - 1], sep)) &&
      (r != a + b ==> r == a + [sep] + b)
  {
    if |a| == 0 then b
    else if |b| == 0 then a
    else if IsRooted(b, sep) then b
    else if IsSeparator(a[|a| - 1], sep) then a + b
    else a + [sep] + b
  }

  /** Two edge cases of `Path.Combine` that reach the file system: an empty
      image path names the web root itself, and on Windows a drive-rooted
      image path names a file outside the web root. */
  lemma FilePathEdgeCases()
    ensures FilePath("www", "", '/') == "www"
    ensures FilePath("www", "C:/x", '\\') == "C:\\x"
  {
    var web := "C:/x";
    assert web[0] == 'C';
    assert TrimStart(web, '/') == web;
    var file := Replace(web, '/', '\\');
    assert file[0] == 'C' && file[1] == ':' && file[2] == '\\' && file[3] == 'x';
    assert file == "C:\\x";
    assert IsRooted(file, '\\');
    assert Replace(TrimStart("", '/'), '/', '/') == "";
  }

  /** `Path.Combine(webRoot, path.TrimStart('/').Replace('/', sep))`: the
      file a web path such as "/images/x.png" stands for. */
  function FilePath(webRoot: string, webPath: string, sep: char): string {
    Combine(webRoot, Replace(TrimStart(webPath, '/'), '/', sep), sep)
  }

  /** The web path recorded for a saved image: "/images/" + name + extension. */
  function StoredPath(name: string, ext: string): (r: string)
    ensures r == "/images/" + name + ext
  {
    "/" + ImagesFolder + "/" + name + ext
  }

  /** The file an accepted image is written to:
      `Path.Combine(Path.Combine(webRoot, "images"), name + ext)`. */
  function SavedFile(webRoot: string, name: string, ext: string, sep: char): string {
    Combine(Combine(webRoot, ImagesFolder, sep), name + ext, sep)
  }

  /** The recorded web path leads back to the file that was written, so a
      later edit or delete removes the right image. The generated name (32
      hex digits) and the extension carry no separator and no ':'. */
  lemma StoredPathFindsSavedFile(webRoot: string, name: string, ext: string, sep: char)
    requires PlatformSeparator(sep)
    requires NoSeparators(name + ext, sep) && ':' !in name + ext && |name| > 0
    ensures FilePath(webRoot, StoredPath(name, ext), sep) == SavedFile(webRoot, name, ext, sep)
  {
    var file := name + ext;
    StoredPathRelative(name, ext, sep);
    FileNotRooted(file, sep);
    var folder := Combine(webRoot, ImagesFolder, sep);
    FolderJoin(webRoot, sep);
    assert SavedFile(webRoot, name, ext, sep) == folder + [sep] + file;
    RelativeJoin(webRoot, file, sep);
  }

  /** A generated file name is not rooted: it starts with neither a
      separator nor a drive letter and ':'. */
  lemma FileNotRooted(file: string, sep: char)
    requires |file| > 0 && !IsSeparator(file[0], sep) && ':' !in file
    ensures !IsRooted(file, sep)
  {
    assert |file| >= 2 ==> file[1] in file;
  }

  /** "images" under the web root ends in 's' and is never empty. */
  lemma FolderJoin(webRoot: string, sep: char)
    requires PlatformSeparator(sep)
    ensures var folder := Combine(webRoot, ImagesFolder, sep);
      |folder| > 0 && folder[|folder| - 1] == 's' &&
      folder == (if |webRoot| == 0 then ImagesFolder
                 else if IsSeparator(webRoot[|webRoot| - 1], sep) then webRoot + ImagesFolder
                 else webRoot + [sep] + ImagesFolder)
  {
    assert !IsRooted(ImagesFolder, sep) by { assert ImagesFolder[0] == 'i' && ImagesFolder[1] == 'm'; }
  }

  /** Combining the web root with "images/<file>" gives the same path as
      combining it with "images" and then with the file. */
  lemma RelativeJoin(webRoot: string, file: string, sep: char)
    requires PlatformSeparator(sep)
    ensures Combine(webRoot, ImagesFolder + [sep] + file, sep) ==
            Combine(webRoot, ImagesFolder, sep) + [sep] + file
  {
    var relative := ImagesFolder + [sep] + file;
    assert !IsRooted(relative, sep) by { assert relative[0] == 'i' && relative[1] == 'm'; }
    FolderJoin(webRoot, sep);
    if |webRoot| == 0 {
    } else if IsSeparator(webRoot[|webRoot| - 1], sep) {
      assert (webRoot + ImagesFolder) + [sep] + file == webRoot + relative;
    } else {
      assert (webRoot + [sep] + ImagesFolder) + [sep] + file == webRoot + [sep] + relative;
    }
  }

  /** The stored web path with its leading '/' dropped and its '/' turned
      into `sep` is "images", `sep`, then the file name. */
  lemma StoredPathRelative(name: string, ext: string, sep: char)
    requires NoSeparators(name + ext, sep)
    ensures Replace(TrimStart(StoredPath(name, ext), '/'), '/', sep) == ImagesFolder + [sep] + (name + ext)
  {
    var file := name + ext;
    var web := StoredPath(name, ext);
    var relative := ImagesFolder + [sep] + file;
    var rest := ImagesFolder + "/" + file;
    assert web == "/" + rest;
    assert TrimStart(web, '/') == rest by {
      assert web[1..] == rest && rest[0] == 'i';
    }
    var rewritten := Replace(rest, '/', sep);
    forall i | 0 <= i < |rewritten| ensures rewritten[i] == relative[i] {
      if i > |ImagesFolder| {
        assert rest[i] == file[i - |ImagesFolder| - 1];
        assert !IsSeparator(file[i - |ImagesFolder| - 1], sep);
      }
    }
  }

  // ---- the upload rule -------------------------------------------------------

  /** The verdict on the posted file, before anything is written. */
  datatype UploadCheck = NoUpload | Accepted(ext: string) | UploadRejected(message: string)

  /** `imageUpload is { Length: > 0 }`, then the extension, then the size. */
  function CheckUpload(upload: Option<Upload>, sep: char): UploadCheck {
    if upload.None? || upload.value.length <= 0 then NoUpload
    else
      var ext := ToLower(GetExtension(upload.value.fileName, sep));
      if ext !in AllowedExtensions then UploadRejected(UnsupportedFormatMessage)
      else if upload.value.length > MaxImageBytes then UploadRejected(TooLargeMessage)
      else Accepted(ext)
  }

  /** An upload is accepted exactly when it is non-empty, at most 5 MiB and
      its lower-cased extension is listed; an unlisted extension is reported
      as such whatever the size; an empty file is no upload at all. */
  lemma CheckUploadIff(upload: Option<Upload>, sep: char)
    ensures CheckUpload(upload, sep).Accepted? <==>
      upload.Some? && 0 < upload.value.length <= MaxImageBytes &&
      ToLower(GetExtension(upload.value.fileName, sep)) in AllowedExtensions
    ensures CheckUpload(upload, sep).Accepted? ==>
      CheckUpload(upload, sep).ext == ToLower(GetExtension(upload.value.fileName, sep))
    ensures CheckUpload(upload, sep).NoUpload? <==> upload.None? || upload.value.length <= 0
    ensures upload.Some? && upload.value.length > 0 && ToLower(GetExtension(upload.value.fileName, sep)) !in AllowedExtensions ==>
      CheckUpload(upload, sep) == UploadRejected(UnsupportedFormatMessage)
  {
  }

  /** For a name with an extension, the verdict depends only on the
      lower-cased extension and the length. */
  lemma UploadByExtension(stem: string, ext: string, length: int, sep: char)
    requires '.' !in ext && NoSeparators(ext, sep) && |ext| > 0 && length > 0
    ensures CheckUpload(Some(Upload(stem + "." + ext, length)), sep) ==
      if ToLower("." + ext) !in AllowedExtensions then UploadRejected(UnsupportedFormatMessage)
      else if length > MaxImageBytes then UploadRejected(TooLargeMessage)
      else Accepted(ToLower("." + ext))
  {
    ExtensionOfName(stem, ext, sep);
  }

  /** 5 MiB exactly passes, one byte more fails. */
  lemma UploadSizeBoundary()
    ensures CheckUpload(Some(Upload("a.png", 5242880)), '\\') == Accepted(".png")
    ensures CheckUpload(Some(Upload("a.png", 5242881)), '\\') == UploadRejected(TooLargeMessage)
  {
    assert "a" + "." + "png" == "a.png" && "." + "png" == ".png";
    LowerCaseOf(".png", ".png");
    assert ".png" in AllowedExtensions by { assert AllowedExtensions[2] == ".png"; }
    UploadByExtension("a", "png", 5242880, '\\');
    UploadByExtension("a", "png", 5242881, '\\');
  }

  /** An upper-case extension passes. */
  lemma UploadUpperCase()
    ensures CheckUpload(Some(Upload("a.PNG", 100)), '\\') == Accepted(".png")
  {
    assert "a" + "." + "PNG" == "a.PNG" && "." + "PNG" == ".PNG";
    LowerCaseOf(".PNG", ".png");
    assert ".png" in AllowedExtensions by { assert AllowedExtensions[2] == ".png"; }
    UploadByExtension("a", "PNG", 100, '\\');
  }

  /** An unlisted extension is refused. */
  lemma UploadUnlisted()
    ensures CheckUpload(Some(Upload("a.bmp", 100)), '\\') == UploadRejected(UnsupportedFormatMessage)
  {
    assert "a" + "." + "bmp" == "a.bmp" && "." + "bmp" == ".bmp";
    LowerCaseOf(".bmp", ".bmp");
    assert ".bmp" !in AllowedExtensions by {
      assert ".bmp"[1] != ".jpg"[1] && ".bmp"[1] != ".jpeg"[1] && ".bmp"[1] != ".png"[1] && ".bmp"[1] != ".gif"[1];
    }
    UploadByExtension("a", "bmp", 100, '\\');
  }

  lemma LowerCaseOf(s: string, t: string)
    requires |s| == |t| && forall i :: 0 <= i < |s| ==> ToLowerAscii(s[i]) == t[i]
    ensures ToLower(s) == t
  {
  }

  // ---- the reply -------------------------------------------------------------

  /** `string.Join(separator, parts)`. */
  function JoinWith(separator: string, parts: seq<string>): string {
    if |parts| == 0 then "" else if |parts| == 1 then parts[0] else parts[0] + separator + JoinWith(separator, parts[1..])
  }

  /** `result.Message + " " + string.Join(", ", result.Errors)`; a null
      message reads as empty. */
  function ReplyMessage(result: ApiResult): string {
    (if result.message.Some? then result.message.value else "") + " " + JoinWith(", ", result.errors)
  }

  /** A success shows its message and a trailing blank; a failure shows a
      leading blank and its errors joined by ", ". */
  lemma ReplyMessageShapes(message: string, a: string, b: string)
    ensures ReplyMessage(Ok(Some(message))) == message + " "
    ensures ReplyMessage(Ok(None)) == " "
    ensures ReplyMessage(Fail([a, b])) == " " + a + ", " + b
  {
    assert JoinWith(", ", [a, b]) == a + ", " + JoinWith(", ", [b]);
    assert [a, b][1..] == [b];
  }

  /** The JSON reply of an action. `Crashed` is the unhandled
      null-reference exception of an edit without an image path. */
  datatype WebReply = InvalidRequest | UploadFailed(message: string) | Crashed | Replied(success: bool, message: string)

  function Reply(result: ApiResult): (r: WebReply)
    ensures r.Replied? && r.success == result.succeeded && r.message == ReplyMessage(result)
  {
    Replied(result.succeeded, ReplyMessage(result))
  }

  // ---- the form and the web root ---------------------------------------------

  /** The files under the web root. */
  class WebRoot {
    const root: string
    const sep: char
    var files: set<string>

    constructor (root: string, sep: char, files: set<string>)
      requires PlatformSeparator(sep)
      ensures this.root == root && this.sep == sep && this.files == files
    {
      this.root := root;
      this.sep := sep;
      this.files := files;
    }

    /** `if (File.Exists(path)) File.Delete(path)`, failures ignored. */
    method DeleteIfExists(webPath: string)
      modifies this
      ensures files == old(files) - {FilePath(root, webPath, sep)}
    {
      var path := FilePath(root, webPath, sep);
      if path in files {
        files := files - {path};
      }
    }
  }

  /** The bound form of a create or edit request. */
  class FoodForm {
    var imagePath: Option<string>
    var imageUpload: Option<Upload>
    var defaultImageKeep: bool

    constructor (imagePath: Option<string>, imageUpload: Option<Upload>, defaultImageKeep: bool)
      ensures this.imagePath == imagePath && this.imageUpload == imageUpload && this.defaultImageKeep == defaultImageKeep
    {
      this.imagePath := imagePath;
      this.imageUpload := imageUpload;
      this.defaultImageKeep := defaultImageKeep;
    }

    /** The upload block of `Create` and `Edit`: check the file, write it
        under a generated name, and record its web path. `written` says
        whether the write succeeded. On any refusal the form and the files
        are left as they were. */
    method SaveUpload(disk: WebRoot, name: string, written: bool) returns (error: Option<string>)
      modifies this, disk
      ensures imageUpload == old(imageUpload) && defaultImageKeep == old(defaultImageKeep)
      ensures match CheckUpload(old(imageUpload), disk.sep)
        case NoUpload => error.None? && imagePath == old(imagePath) && disk.files == old(disk.files)
        case UploadRejected(m) => error == Some(m) && imagePath == old(imagePath) && disk.files == old(disk.files)
        case Accepted(ext) =>
          if written then
            error.None? && imagePath == Some(StoredPath(name, ext)) &&
            disk.files == old(disk.files) + {SavedFile(disk.root, name, ext, disk.sep)}
          else error == Some(SaveFailedMessage) && imagePath == old(imagePath) && disk.files == old(disk.files)
    {
      var check := CheckUpload(imageUpload, disk.sep);
      match check
      case NoUpload => error := None;
      case UploadRejected(m) => error := Some(m);
      case Accepted(ext) =>
        if !written {
          return Some(SaveFailedMessage);
        }
        disk.files := disk.files + {SavedFile(disk.root, name, ext, disk.sep)};
        imagePath := Some(StoredPath(name, ext));
        error := None;
    }
  }

  // ---- actions ---------------------------------------------------------------

  /** `Create(food)`: validate, save the upload, then forward the form. The
      service sees the form's image path after the upload. */
  method Create(form: FoodForm, disk: WebRoot, modelValid: bool, name: string, written: bool,
                service: Option<string> -> ApiResult) returns (reply: WebReply)
    modifies form, disk
    ensures !modelValid ==> reply == InvalidRequest && form.imagePath == old(form.imagePath) && disk.files == old(disk.files)
    ensures modelValid && CheckUpload(old(form.imageUpload), disk.sep).UploadRejected? ==>
      reply == UploadFailed(CheckUpload(old(form.imageUpload), disk.sep).message) && disk.files == old(disk.files)
    ensures modelValid && CheckUpload(old(form.imageUpload), disk.sep).NoUpload? ==>
      reply == Reply(service(old(form.imagePath))) && form.imagePath == old(form.imagePath) && disk.files == old(disk.files)
    ensures modelValid && CheckUpload(old(form.imageUpload), disk.sep).Accepted? ==>
      var ext := CheckUpload(old(form.imageUpload), disk.sep).ext;
      if written then
        reply == Reply(service(Some(StoredPath(name, ext)))) && form.imagePath == Some(StoredPath(name, ext)) &&
        disk.files == old(disk.files) + {SavedFile(disk.root, name, ext, disk.sep)}
      else reply == UploadFailed(SaveFailedMessage) && disk.files == old(disk.files)
  {
    if !modelValid {
      return InvalidRequest;
    }
    var error := form.SaveUpload(disk, name, written);
    if error.Some? {
      return UploadFailed(error.value);
    }
    reply := Reply(service(form.imagePath));
  }

  /** `Edit(food)`: validate; unless the current image is kept, delete it;
      then save the upload and forward the form. The delete happens before
      the upload is checked, so a refused upload still loses the old image. */
  method Edit(form: FoodForm, disk: WebRoot, modelValid: bool, name: string, written: bool,
              service: Option<string> -> ApiResult) returns (reply: WebReply)
    modifies form, disk
    ensures !modelValid ==> reply == InvalidRequest && form.imagePath == old(form.imagePath) && disk.files == old(disk.files)
    ensures modelValid && !old(form.defaultImageKeep) && old(form.imagePath).None? ==>
      reply == Crashed && disk.files == old(disk.files)
    ensures modelValid && (old(form.defaultImageKeep) || old(form.imagePath).Some?) ==>
      disk.files ==
        (if old(form.defaultImageKeep) then old(disk.files)
         else old(disk.files) - {FilePath(disk.root, old(form.imagePath).value, disk.sep)}) +
        (if CheckUpload(old(form.imageUpload), disk.sep).Accepted? && written
         then {SavedFile(disk.root, name, CheckUpload(old(form.imageUpload), disk.sep).ext, disk.sep)} else {})
    ensures (modelValid && (old(form.defaultImageKeep) || old(form.imagePath).Some?) &&
      CheckUpload(old(form.imageUpload), disk.sep).Accepted? && !written) ==>
      reply == UploadFailed(SaveFailedMessage) && form.imagePath == old(form.imagePath)
    ensures (modelValid && (old(form.defaultImageKeep) || old(form.imagePath).Some?) &&
      CheckUpload(old(form.imageUpload), disk.sep).UploadRejected?) ==>
      reply == UploadFailed(CheckUpload(old(form.imageUpload), disk.sep).message) && form.imagePath == old(form.imagePath)
    ensures (modelValid && (old(form.defaultImageKeep) || old(form.imagePath).Some?) &&
      CheckUpload(old(form.imageUpload), disk.sep).Accepted? && written) ==>
      var path := StoredPath(name, CheckUpload(old(form.imageUpload), disk.sep).ext);
      form.imagePath == Some(path) && reply == Reply(service(Some(path)))
    ensures (modelValid && (old(form.defaultImageKeep) || old(form.imagePath).Some?) &&
      CheckUpload(old(form.imageUpload), disk.sep).NoUpload?) ==>
      form.imagePath == old(form.imagePath) && reply == Reply(service(old(form.imagePath)))
  {
    if !modelValid {
      return InvalidRequest;
    }
    if !form.defaultImageKeep {
      if form.imagePath.None? {
        return Crashed;
      }
      disk.DeleteIfExists(form.imagePath.value);
    }
    var error := form.SaveUpload(disk, name, written);
    if error.Some? {
      return UploadFailed(error.value);
    }
    reply := Reply(service(form.imagePath));
  }

  /** The food the delete form was opened for, as the service read it. */
  datatype FoodView = FoodView(id: int, imagePath: Option<string>)

  /** `responce.Succeeded && reponceFood != null && !string.IsNullOrEmpty(reponceFood.imagePath)`. */
  predicate ShouldDeleteImage(result: ApiResult, food: Option<FoodView>) {
    result.succeeded && food.Some? && food.value.imagePath.Some? && |food.value.imagePath.value| > 0
  }

  /** `Delete(foodId)`: read the food, ask the service to delete it, and
      remove its image only when the delete succeeded and the food had an
      image path. */
  method Delete(disk: WebRoot, modelValid: bool, food: Option<FoodView>, result: ApiResult) returns (reply: WebReply)
    modifies disk
    ensures !modelValid ==> reply == InvalidRequest && disk.files == old(disk.files)
    ensures modelValid ==> reply == Reply(result)
    ensures modelValid && ShouldDeleteImage(result, food) ==>
      disk.files == old(disk.files) - {FilePath(disk.root, food.value.imagePath.value, disk.sep)}
    ensures !ShouldDeleteImage(result, food) ==> disk.files == old(disk.files)
  {
    if !modelValid {
      return InvalidRequest;
    }
    if ShouldDeleteImage(result, food) {
      disk.DeleteIfExists(food.value.imagePath.value);
    }
    reply := Reply(result);
  }

  /** A failed delete, or a food without an image, never removes a file. */
  lemma DeleteImageOnlyOnSuccess(result: ApiResult, food: Option<FoodView>)
    ensures ShouldDeleteImage(result, food) ==> result.succeeded
    ensures ShouldDeleteImage(result, food) <==>
      result.succeeded && food.Some? && food.value.imagePath.Some? && food.value.imagePath.value != ""
    ensures !ShouldDeleteImage(Fail(result.errors), food)
  {
  }
}

/**
 * The `multipart/form-data` body writer (section 5.1.1 of RFC 2046, RFC
 * 7578). A builder holds a boundary, a map of text fields and a list of file
 * uploads; `build` writes one part per text field, in the map's iteration
 * order, then one part per upload, in the order they were added, then the
 * closing delimiter. The file system is a parameter: for a path it gives the
 * file's bytes or the I/O error that `validate` or `read_contents` raises.
 */
module Multipart {
  import opened Wrappers
  import Text
  import Utf8
  import Errors
  import Form

  type Byte = Utf8.Byte

  /** A file to upload: its path, the form field it fills, and the optional file name and MIME type that override the defaults. */
  datatype FileUpload = FileUpload(path: string, fieldName: string, customFilename: Option<string>, mimeType: Option<string>)

  /** The bytes stored at a path, or the error reading them raises. */
  type FileSystem = string -> Result<seq<Byte>, Errors.Error>

  /** A '/'-separated piece of a path that names no component: empty (from "//" or an edge '/') or ".". */
  predicate Skipped(piece: string) {
    piece == "" || piece == "."
  }

  /** Piece `i` is the path's last component: it is not skipped, and every piece after it is. */
  predicate LastComponentAt(pieces: seq<string>, i: nat) {
    i < |pieces| && !Skipped(pieces[i]) && forall j :: i < j < |pieces| ==> Skipped(pieces[j])
  }

  /** The position of the last piece that is not skipped, scanning from the end; none when every piece is skipped. */
  function LastComponent(pieces: seq<string>): (r: Option<nat>)
    ensures r.Some? ==> LastComponentAt(pieces, r.value)
    ensures r.None? ==> forall j :: 0 <= j < |pieces| ==> Skipped(pieces[j])
  {
    if pieces == [] then None
    else if Skipped(pieces[|pieces| - 1]) then
      var r := LastComponent(pieces[..|pieces| - 1]);
      assert forall j :: 0 <= j < |pieces| - 1 ==> pieces[..|pieces| - 1][j] == pieces[j];
      r
    else Some(|pieces| - 1)
  }

  /**
   * `Path::file_name` on a Unix path, with "file" in its place when there
   * is none: the last component, where empty and "." components do not
   * count, and there is no file name when that component is ".." or the
   * path has no component at all ("", "/", ".").
   */
  function BaseName(path: string): (r: string)
    ensures r != [] && '/' !in r && r != "." && r != ".."
    ensures (forall j :: 0 <= j < |Text.Split(path, '/')| ==> Skipped(Text.Split(path, '/')[j])) ==> r == "file"
    ensures forall i: nat :: LastComponentAt(Text.Split(path, '/'), i) ==>
      r == (if Text.Split(path, '/')[i] == ".." then "file" else Text.Split(path, '/')[i])
  {
    var pieces := Text.Split(path, '/');
    match LastComponent(pieces)
    case None =>
      assert forall k: nat :: !LastComponentAt(pieces, k);
      "file"
    case Some(i) =>
      assert forall k: nat :: LastComponentAt(pieces, k) ==> k == i;
      if pieces[i] == ".." then "file" else pieces[i]
  }

  /** A trailing '/' is ignored: "photos/" names "photos". */
  lemma BaseNameTrailingSlash()
    ensures BaseName("photos/") == "photos"
  {
    assert Text.Join(["photos", ""], "/") == "photos" + "/" + "";
    SplitsAs("photos/", ["photos", ""]);
    assert LastComponentAt(["photos", ""], 0);
  }

  /** "." names no file. */
  lemma BaseNameDot()
    ensures BaseName(".") == "file"
  {
    SplitsAs(".", ["."]);
  }

  /** A path ending in ".." names no file. */
  lemma BaseNameParent()
    ensures BaseName("a/..") == "file"
  {
    assert Text.Join(["a", ".."], "/") == "a" + "/" + "..";
    SplitsAs("a/..", ["a", ".."]);
    assert LastComponentAt(["a", ".."], 1);
  }

  /** An ordinary path names its last component. */
  lemma BaseNamePlain()
    ensures BaseName("dir/report.pdf") == "report.pdf"
  {
    assert Text.Join(["dir", "report.pdf"], "/") == "dir" + "/" + "report.pdf";
    SplitsAs("dir/report.pdf", ["dir", "report.pdf"]);
    assert LastComponentAt(["dir", "report.pdf"], 1);
  }

  lemma SplitsAs(path: string, pieces: seq<string>)
    requires |pieces| >= 1 && forall i :: 0 <= i < |pieces| ==> '/' !in pieces[i]
    requires Text.Join(pieces, "/") == path
    ensures Text.Split(path, '/') == pieces
  {
    Text.SplitJoin(pieces, '/');
  }

  /** `FileUpload::filename`: the custom name when set, otherwise the file name of the path. */
  function FileName(u: FileUpload): (r: string)
    ensures u.customFilename.Some? ==> r == u.customFilename.value
    ensures u.customFilename.None? ==> r == BaseName(u.path)
  {
    if u.customFilename.Some? then u.customFilename.value else BaseName(u.path)
  }

  const DEFAULT_MIME := "application/octet-stream"

  /** `FileUpload::mime`: the MIME type, "application/octet-stream" when none is known. */
  function Mime(u: FileUpload): string {
    if u.mimeType.Some? then u.mimeType.value else DEFAULT_MIME
  }

  const BOUNDARY_PREFIX := "----BazzounquesterBoundary"

  /** `generate_boundary`, with the clock reading in nanoseconds as a parameter. */
  function GenerateBoundary(nanos: nat): (r: string)
    ensures Text.StripPrefix(r, BOUNDARY_PREFIX) == Some(Text.NatToString(nanos))
  {
    var r := BOUNDARY_PREFIX + Text.NatToString(nanos);
    assert r[..|BOUNDARY_PREFIX|] == BOUNDARY_PREFIX;
    assert r[|BOUNDARY_PREFIX|..] == Text.NatToString(nanos);
    r
  }

  const CRLF := "\r\n"

  // ---- The body, as a function of the builder's state

  /** One text part: delimiter line, the disposition header naming the field, an empty line, the value, CRLF. */
  function TextPart(delim: string, name: string, value: string): string {
    delim + CRLF + "Content-Disposition: form-data; name=\"" + name + "\"\r\n\r\n" + value + CRLF
  }

  /** The parts of the text fields, in the given order. */
  function TextSection(delim: string, fields: map<string, string>, order: seq<string>): string
    decreases |order|
  {
    if order == [] then ""
    else
      var name := order[|order| - 1];
      TextSection(delim, fields, order[..|order| - 1])
      + (if name in fields then TextPart(delim, name, fields[name]) else "")
  }

  /** The headers of one file part: delimiter line, the disposition naming field and file, the content type, an empty line. */
  function FileHead(delim: string, u: FileUpload): string {
    delim + CRLF
    + "Content-Disposition: form-data; name=\"" + u.fieldName + "\"; filename=\"" + FileName(u) + "\"\r\n"
    + "Content-Type: " + Mime(u) + "\r\n\r\n"
  }

  /** One file part: its headers, the file's bytes, CRLF. */
  function FilePart(delim: string, u: FileUpload, contents: seq<Byte>): seq<Byte> {
    Utf8.Encode(FileHead(delim, u)) + contents + Utf8.Encode(CRLF)
  }

  /** The uploads' parts as `part` writes them, in order; the first upload whose file cannot be read ends it with that error. */
  function Parts(uploads: seq<FileUpload>, fs: FileSystem, part: (FileUpload, seq<Byte>) -> seq<Byte>): Result<seq<Byte>, Errors.Error>
    decreases |uploads|
  {
    if uploads == [] then Ok([])
    else
      var u := uploads[|uploads| - 1];
      match Parts(uploads[..|uploads| - 1], fs, part)
      case Err(e) => Err(e)
      case Ok(front) =>
        match fs(u.path)
        case Err(e) => Err(e)
        case Ok(contents) => Ok(front + part(u, contents))
  }

  /** The parts of the uploads, in order; the first upload whose file cannot be read ends it with that error. */
  function FileSection(delim: string, uploads: seq<FileUpload>, fs: FileSystem): Result<seq<Byte>, Errors.Error> {
    Parts(uploads, fs, (u: FileUpload, c: seq<Byte>) => FilePart(delim, u, c))
  }

  /** The closing delimiter line. */
  function Closing(delim: string): string {
    delim + "--" + CRLF
  }

  /** What `build` returns for a builder with this boundary, these fields and uploads. */
  function Body(boundary: string, fields: map<string, string>, order: seq<string>, uploads: seq<FileUpload>, fs: FileSystem): (r: Result<seq<Byte>, Errors.Error>)
    ensures r.Ok? <==> FileSection("--" + boundary, uploads, fs).Ok?
  {
    var delim := "--" + boundary;
    match FileSection(delim, uploads, fs)
    case Err(e) => Err(e)
    case Ok(files) => Ok(Utf8.Encode(TextSection(delim, fields, order)) + files + Utf8.Encode(Closing(delim)))
  }

  class MultipartBuilder {
    var boundary: string
    var textFields: map<string, string>
    var fileUploads: seq<FileUpload>

    /** `MultipartBuilder::new`, with the clock reading as a parameter. */
    constructor (nanos: nat)
      ensures boundary == GenerateBoundary(nanos) && textFields == map[] && fileUploads == []
    {
      boundary := GenerateBoundary(nanos);
      textFields := map[];
      fileUploads := [];
    }

    /** `add_text`: keyed by name, the last value wins. */
    method AddText(name: string, value: string)
      modifies this
      ensures textFields == old(textFields)[name := value]
      ensures boundary == old(boundary) && fileUploads == old(fileUploads)
    {
      textFields := textFields[name := value];
    }

    /** `add_file`: appended after the uploads added before. */
    method AddFile(u: FileUpload)
      modifies this
      ensures fileUploads == old(fileUploads) + [u]
      ensures boundary == old(boundary) && textFields == old(textFields)
    {
      fileUploads := fileUploads + [u];
    }

    /** `with_text` */
    method WithText(name: string, value: string) returns (self: MultipartBuilder)
      modifies this
      ensures self == this && textFields == old(textFields)[name := value]
      ensures boundary == old(boundary) && fileUploads == old(fileUploads)
    {
      AddText(name, value);
      self := this;
    }

    /** `with_file` */
    method WithFile(u: FileUpload) returns (self: MultipartBuilder)
      modifies this
      ensures self == this && fileUploads == old(fileUploads) + [u]
      ensures boundary == old(boundary) && textFields == old(textFields)
    {
      AddFile(u);
      self := this;
    }

    /** `content_type`: the media type with this builder's boundary as its parameter. */
    function ContentType(): (r: string)
      reads this
      ensures Text.StripPrefix(r, "multipart/form-data; boundary=") == Some(boundary)
    {
      var p := "multipart/form-data; boundary=";
      var r := p + boundary;
      assert r[..|p|] == p && r[|p|..] == boundary;
      r
    }

    /**
     * `build`: the text parts in the map's iteration order `order`, the file
     * parts in upload order, then the closing delimiter; the first file that
     * cannot be read ends it with that error.
     */
    method Build(order: seq<string>, fs: FileSystem) returns (r: Result<seq<Byte>, Errors.Error>)
      requires Form.IsOrderOf(order, textFields.Keys)
      ensures r == Body(boundary, textFields, order, fileUploads, fs)
    {
      var delim := "--" + boundary;
      var text := WriteTextParts(delim, textFields, order);
      var files := WriteFileParts(delim, fileUploads, fs);
      if files.Err? {
        return Err(files.error);
      }
      var close := Utf8.Encode(Closing(delim));
      r := Ok(text + files.value + close);
      assert r == Body(boundary, textFields, order, fileUploads, fs);
    }
  }

  /** The text-field loop of `build`: for each name in the iteration order, its part's pieces appended in turn. */
  method WriteTextParts(delim: string, fields: map<string, string>, order: seq<string>) returns (body: seq<Byte>)
    requires Form.IsOrderOf(order, fields.Keys)
    ensures body == Utf8.Encode(TextSection(delim, fields, order))
  {
    body := [];
    var i := 0;
    while i < |order|
      invariant 0 <= i <= |order|
      invariant body == Utf8.Encode(TextSection(delim, fields, order[..i]))
    {
      var name := order[i];
      var value := fields[name];
      var piece := Utf8.Encode(delim) + Utf8.Encode(CRLF)
        + Utf8.Encode("Content-Disposition: form-data; name=\"" + name + "\"\r\n\r\n")
        + Utf8.Encode(value) + Utf8.Encode(CRLF);
      AppendTextPart(delim, name, value);
      TextSectionStep(delim, fields, order, i);
      Utf8.EncodeAppend(TextSection(delim, fields, order[..i]), TextPart(delim, name, value));
      body := body + piece;
      i := i + 1;
    }
    assert order[..i] == order;
  }

  /** One upload's part: its headers' pieces, the file's bytes and CRLF, appended in turn. */
  method WriteFilePart(delim: string, u: FileUpload, contents: seq<Byte>) returns (piece: seq<Byte>)
    ensures piece == FilePart(delim, u, contents)
  {
    var head := Utf8.Encode(delim) + Utf8.Encode(CRLF)
      + Utf8.Encode("Content-Disposition: form-data; name=\"" + u.fieldName + "\"; filename=\"" + FileName(u) + "\"\r\n")
      + Utf8.Encode("Content-Type: " + Mime(u) + "\r\n\r\n");
    AppendFileHead(delim, u);
    piece := head + contents + Utf8.Encode(CRLF);
  }

  /** The upload loop of `build`: each file's headers, bytes and CRLF appended in turn; the first unreadable file stops it. */
  method WriteFileParts(delim: string, uploads: seq<FileUpload>, fs: FileSystem) returns (r: Result<seq<Byte>, Errors.Error>)
    ensures r == FileSection(delim, uploads, fs)
  {
    var body: seq<Byte> := [];
    var j := 0;
    while j < |uploads|
      invariant 0 <= j <= |uploads|
      invariant FileSection(delim, uploads[..j], fs) == Ok(body)
    {
      var u := uploads[j];
      PartsStep(uploads, j, fs, (u: FileUpload, c: seq<Byte>) => FilePart(delim, u, c));
      var contents := fs(u.path);
      if contents.Err? {
        FileErrorStops(delim, uploads, j + 1, fs);
        return Err(contents.error);
      }
      var piece := WriteFilePart(delim, u, contents.value);
      body := body + piece;
      j := j + 1;
    }
    assert uploads[..j] == uploads;
    r := Ok(body);
  }

  // ---- Lemmas the writer needs

  /** The bytes of a text part are the bytes of its pieces, written one after the other. */
  lemma AppendTextPart(delim: string, name: string, value: string)
    ensures Utf8.Encode(TextPart(delim, name, value))
      == Utf8.Encode(delim) + Utf8.Encode(CRLF)
         + Utf8.Encode("Content-Disposition: form-data; name=\"" + name + "\"\r\n\r\n")
         + Utf8.Encode(value) + Utf8.Encode(CRLF)
  {
    var h := "Content-Disposition: form-data; name=\"" + name + "\"\r\n\r\n";
    assert TextPart(delim, name, value) == delim + CRLF + h + value + CRLF;
    Utf8.EncodeAppend(delim + CRLF + h + value, CRLF);
    Utf8.EncodeAppend(delim + CRLF + h, value);
    Utf8.EncodeAppend(delim + CRLF, h);
    Utf8.EncodeAppend(delim, CRLF);
  }

  /** The bytes of a file part's headers are the bytes of its pieces. */
  lemma AppendFileHead(delim: string, u: FileUpload)
    ensures Utf8.Encode(FileHead(delim, u))
      == Utf8.Encode(delim) + Utf8.Encode(CRLF)
         + Utf8.Encode("Content-Disposition: form-data; name=\"" + u.fieldName + "\"; filename=\"" + FileName(u) + "\"\r\n")
         + Utf8.Encode("Content-Type: " + Mime(u) + "\r\n\r\n")
  {
    var d := "Content-Disposition: form-data; name=\"" + u.fieldName + "\"; filename=\"" + FileName(u) + "\"\r\n";
    var t := "Content-Type: " + Mime(u) + "\r\n\r\n";
    assert FileHead(delim, u) == delim + CRLF + d + t;
    Utf8.EncodeAppend(delim + CRLF + d, t);
    Utf8.EncodeAppend(delim + CRLF, d);
    Utf8.EncodeAppend(delim, CRLF);
  }

  lemma TextSectionStep(delim: string, fields: map<string, string>, order: seq<string>, i: nat)
    requires i < |order| && order[i] in fields
    ensures TextSection(delim, fields, order[..i + 1])
      == TextSection(delim, fields, order[..i]) + TextPart(delim, order[i], fields[order[i]])
  {
    assert order[..i + 1][..i] == order[..i];
  }

  /** One more upload at the end of the list is read and written last. */
  lemma PartsStep(uploads: seq<FileUpload>, j: nat, fs: FileSystem, part: (FileUpload, seq<Byte>) -> seq<Byte>)
    requires j < |uploads|
    ensures Parts(uploads[..j + 1], fs, part)
      == match Parts(uploads[..j], fs, part)
         case Err(e) => Err(e)
         case Ok(front) =>
           match fs(uploads[j].path)
           case Err(e) => Err(e)
           case Ok(contents) => Ok(front + part(uploads[j], contents))
  {
    assert uploads[..j + 1][..j] == uploads[..j];
  }

  /** Once the first k uploads fail, so does the whole list, with the same error. */
  lemma {:induction false} PartsErrorStops(uploads: seq<FileUpload>, k: nat, fs: FileSystem, part: (FileUpload, seq<Byte>) -> seq<Byte>)
    requires k <= |uploads| && Parts(uploads[..k], fs, part).Err?
    ensures Parts(uploads, fs, part) == Parts(uploads[..k], fs, part)
    decreases |uploads| - k
  {
    if k == |uploads| {
      assert uploads[..k] == uploads;
    } else {
      PartsStep(uploads, k, fs, part);
      PartsErrorStops(uploads, k + 1, fs, part);
    }
  }

  /** Once the first k uploads fail, so does the whole list: the error of the first unreadable file is the result. */
  lemma FileErrorStops(delim: string, uploads: seq<FileUpload>, k: nat, fs: FileSystem)
    requires k <= |uploads| && FileSection(delim, uploads[..k], fs).Err?
    ensures FileSection(delim, uploads, fs) == FileSection(delim, uploads[..k], fs)
  {
    PartsErrorStops(uploads, k, fs, (u: FileUpload, c: seq<Byte>) => FilePart(delim, u, c));
  }

  // ---- Properties of the body

  /** Every upload's file can be read. */
  predicate AllReadable(uploads: seq<FileUpload>, fs: FileSystem) {
    forall i :: 0 <= i < |uploads| ==> fs(uploads[i].path).Ok?
  }

  /** The parts exist exactly when every file can be read, whatever each part is. */
  lemma {:induction false} PartsOk(uploads: seq<FileUpload>, fs: FileSystem, part: (FileUpload, seq<Byte>) -> seq<Byte>)
    ensures Parts(uploads, fs, part).Ok? <==> AllReadable(uploads, fs)
    decreases |uploads|
  {
    if uploads != [] {
      var n := |uploads| - 1;
      var front := uploads[..n];
      PartsOk(front, fs, part);
      var u := uploads[n];
      if AllReadable(front, fs) && fs(u.path).Ok? {
        forall i | 0 <= i < |uploads| ensures fs(uploads[i].path).Ok? {
          if i < n { assert uploads[i] == front[i]; }
        }
      }
      if AllReadable(uploads, fs) {
        assert fs(uploads[n].path).Ok?;
        forall i | 0 <= i < n ensures fs(front[i].path).Ok? {
          assert front[i] == uploads[i];
        }
      }
    }
  }

  /** The uploads' parts exist exactly when every file can be read. */
  lemma FileSectionOk(delim: string, uploads: seq<FileUpload>, fs: FileSystem)
    ensures FileSection(delim, uploads, fs).Ok? <==> AllReadable(uploads, fs)
  {
    PartsOk(uploads, fs, (u: FileUpload, c: seq<Byte>) => FilePart(delim, u, c));
  }

  /** When some file cannot be read, the result is the error of the first such file, whatever each part is. */
  lemma {:induction false} PartsFirstError(uploads: seq<FileUpload>, fs: FileSystem, part: (FileUpload, seq<Byte>) -> seq<Byte>, k: nat)
    requires k < |uploads| && fs(uploads[k].path).Err?
    requires forall i :: 0 <= i < k ==> fs(uploads[i].path).Ok?
    ensures Parts(uploads, fs, part) == Err(fs(uploads[k].path).error)
    decreases |uploads|
  {
    var n := |uploads| - 1;
    var front := uploads[..n];
    if k < n {
      assert front[k] == uploads[k];
      assert forall i :: 0 <= i < k ==> front[i] == uploads[i];
      PartsFirstError(front, fs, part, k);
    } else {
      assert forall i :: 0 <= i < n ==> front[i] == uploads[i];
      PartsOk(front, fs, part);
      assert AllReadable(front, fs);
    }
  }

  /** When some file cannot be read, the result is the error of the first such file. */
  lemma FileSectionFirstError(delim: string, uploads: seq<FileUpload>, fs: FileSystem, k: nat)
    requires k < |uploads| && fs(uploads[k].path).Err?
    requires forall i :: 0 <= i < k ==> fs(uploads[i].path).Ok?
    ensures FileSection(delim, uploads, fs) == Err(fs(uploads[k].path).error)
  {
    PartsFirstError(uploads, fs, (u: FileUpload, c: seq<Byte>) => FilePart(delim, u, c), k);
  }

  /**
   * The body opens with the text parts and ends with the closing delimiter
   * "--B--\r\n", the file parts in between; it is an error exactly when
   * some upload's file cannot be read.
   */
  lemma BodyShape(boundary: string, fields: map<string, string>, order: seq<string>, uploads: seq<FileUpload>, fs: FileSystem)
    ensures Body(boundary, fields, order, uploads, fs).Ok? <==> AllReadable(uploads, fs)
    ensures var r := Body(boundary, fields, order, uploads, fs);
      var text := Utf8.Encode(TextSection("--" + boundary, fields, order));
      var close := Utf8.Encode(Closing("--" + boundary));
      r.Ok? ==> |r.value| >= |text| + |close| && r.value[..|text|] == text && r.value[|r.value| - |close|..] == close
  {
    FileSectionOk("--" + boundary, uploads, fs);
    var r := Body(boundary, fields, order, uploads, fs);
    if r.Ok? {
      var files := FileSection("--" + boundary, uploads, fs).value;
      var text := Utf8.Encode(TextSection("--" + boundary, fields, order));
      var close := Utf8.Encode(Closing("--" + boundary));
      assert r.value == text + files + close;
      assert r.value[..|text|] == text;
      assert r.value[|r.value| - |close|..] == close;
    }
  }

  /** With no fields and no uploads the body is the closing delimiter alone. */
  lemma EmptyBody(boundary: string, fs: FileSystem)
    ensures Body(boundary, map[], [], [], fs) == Ok(Utf8.Encode(Closing("--" + boundary)))
  {
    var d := "--" + boundary;
    var order: seq<string> := [];
    assert TextSection(d, map[], order) == "";
    assert Utf8.Encode("") == [];
    assert FileSection(d, [], fs) == Ok([]);
    assert Body(boundary, map[], order, [], fs) == Ok([] + [] + Utf8.Encode(Closing(d)));
    assert [] + [] + Utf8.Encode(Closing(d)) == Utf8.Encode(Closing(d));
  }

  /** A single field's section is its part alone. */
  lemma TextSectionSingle(delim: string, name: string, value: string)
    ensures TextSection(delim, map[name := value], [name]) == TextPart(delim, name, value)
  {
    assert [name][..0] == [];
    assert "" + TextPart(delim, name, value) == TextPart(delim, name, value);
  }

  /** One text field: its part, then the closing delimiter. */
  lemma SingleTextField(boundary: string, name: string, value: string, fs: FileSystem)
    ensures Body(boundary, map[name := value], [name], [], fs)
      == Ok(Utf8.Encode(TextPart("--" + boundary, name, value) + Closing("--" + boundary)))
  {
    var d := "--" + boundary;
    var part := TextPart(d, name, value);
    TextSectionSingle(d, name, value);
    Utf8.EncodeAppend(part, Closing(d));
    var text := Utf8.Encode(part);
    var close := Utf8.Encode(Closing(d));
    var none: seq<FileUpload> := [];
    assert FileSection(d, none, fs) == Ok([]);
    assert Body(boundary, map[name := value], [name], none, fs) == Ok(text + [] + close);
    assert text + [] + close == text + close;
  }

  /** A single readable upload gives its part alone. */
  lemma PartsSingle(u: FileUpload, fs: FileSystem, part: (FileUpload, seq<Byte>) -> seq<Byte>)
    requires fs(u.path).Ok?
    ensures Parts([u], fs, part) == Ok(part(u, fs(u.path).value))
  {
    assert [u][..0] == [];
    assert [] + part(u, fs(u.path).value) == part(u, fs(u.path).value);
  }

  /** One readable upload: its headers, the file's bytes and CRLF, then the closing delimiter. */
  lemma SingleFile(boundary: string, u: FileUpload, fs: FileSystem)
    requires fs(u.path).Ok?
    ensures Body(boundary, map[], [], [u], fs)
      == Ok(Utf8.Encode(FileHead("--" + boundary, u)) + fs(u.path).value + Utf8.Encode(CRLF) + Utf8.Encode(Closing("--" + boundary)))
  {
    var d := "--" + boundary;
    var c := fs(u.path).value;
    PartsSingle(u, fs, (u: FileUpload, c: seq<Byte>) => FilePart(d, u, c));
    var files := FilePart(d, u, c);
    assert FileSection(d, [u], fs) == Ok(files);
    var order: seq<string> := [];
    assert TextSection(d, map[], order) == "";
    assert Utf8.Encode("") == [];
    var close := Utf8.Encode(Closing(d));
    assert Body(boundary, map[], order, [u], fs) == Ok([] + files + close);
    assert [] + files + close == files + close;
  }
}

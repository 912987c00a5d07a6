/** The image upload endpoint: a content-type gate, then the uploaded bytes
    written under the client's file name in the upload directory. The
    directory is an immutable map from file name to contents, and the
    outcome of the disk write is an input rather than an effect. */
module Images {

  type Byte = bv8

  /** The upload directory: file name to file contents. */
  type Store = map<string, seq<Byte>>

  datatype Option<T> = None | Some(value: T)

  /** One multipart file as the handler receives it. The declared content
      type may be missing from the part's headers. */
  datatype UploadFile = UploadFile(filename: string, contentType: Option<string>, content: seq<Byte>)

  /** What the disk does with one write. A failed write may have created or
      truncated the file before failing (`leftOnDisk`), or not have opened
      it at all (`None`). */
  datatype WriteOutcome =
    | Written
    | WriteFailed(reason: string, leftOnDisk: Option<seq<Byte>>)

  /** The handler's answer: its JSON acknowledgement, an HTTP error it raises,
      or an exception it lets escape, which the server turns into a bare 500. */
  datatype Response =
    | Uploaded(message: string, filename: string)
    | HttpError(status: int, detail: string)
    | Unhandled(exception: string)

  /** The response together with the upload directory afterwards. */
  datatype Handled = Handled(response: Response, store: Store)

  const ImagePrefix := "image/"
  const NotAnImage := "File is not an image"
  const UploadedMessage := "Image uploaded successfully"
  const UploadFailedPrefix := "Failed to upload image: "
  /** `None.startswith(...)` raises before the handler's own checks answer. */
  const MissingContentType := "AttributeError: 'NoneType' object has no attribute 'startswith'"

  function StatusCode(r: Response): int {
    match r
    case Uploaded(_, _) => 200
    case HttpError(status, _) => status
    case Unhandled(_) => 500
  }

  /** Python's `ct.startswith("image/")`: literal and case-sensitive. */
  predicate IsImageType(ct: string) {
    |ct| >= |ImagePrefix| && ct[..|ImagePrefix|] == ImagePrefix
  }

  /** The content-type gate lets the file through. */
  predicate Accepted(file: UploadFile) {
    file.contentType.Some? && IsImageType(file.contentType.value)
  }

  /** An image type is exactly `image/` followed by anything at all. */
  lemma IsImageTypeIff(ct: string)
    ensures IsImageType(ct) <==> exists subtype :: ct == ImagePrefix + subtype
  {
    if IsImageType(ct) {
      assert ct == ImagePrefix + ct[|ImagePrefix|..];
    }
    forall subtype | ct == ImagePrefix + subtype ensures IsImageType(ct) {
      assert ct[..|ImagePrefix|] == ImagePrefix;
    }
  }

  /** The gate compares case-sensitively and needs the slash. */
  lemma GateExamples()
    ensures IsImageType("image/png") && IsImageType("image/")
    ensures !IsImageType("IMAGE/png") && !IsImageType("Image/png")
    ensures !IsImageType("image") && !IsImageType("text/plain")
  {
    assert "image/png"[..6] == ImagePrefix;
    assert "image/"[..6] == ImagePrefix;
    assert "IMAGE/png"[0] != ImagePrefix[0];
    assert "Image/png"[0] != ImagePrefix[0];
    assert "text/plain"[0] != ImagePrefix[0];
  }

  /** `upload_image`: reject anything not declared `image/...`, else write
      the bytes under the client's file name, overwriting what was there. */
  function UploadImage(store: Store, file: UploadFile, write: WriteOutcome): (h: Handled)
    // no content type at all: the prefix test itself fails, nothing is written
    ensures file.contentType.None? ==> h.response == Unhandled(MissingContentType) && h.store == store
    // a declared type that is not an image: 400, nothing is written
    ensures file.contentType.Some? && !IsImageType(file.contentType.value) ==>
      h.response == HttpError(400, NotAnImage) && h.store == store
    // accepted and written: the file holds exactly the upload, its name is echoed
    ensures Accepted(file) && write.Written? ==>
      && h.response == Uploaded(UploadedMessage, file.filename)
      && file.filename in h.store && h.store[file.filename] == file.content
    // accepted but the write failed: 500 with the reason, the file holds whatever was left
    ensures Accepted(file) && write.WriteFailed? ==>
      && h.response == HttpError(500, UploadFailedPrefix + write.reason)
      && (write.leftOnDisk.None? ==> h.store == store)
      && (write.leftOnDisk.Some? ==> file.filename in h.store && h.store[file.filename] == write.leftOnDisk.value)
    // success is reported exactly when the bytes were stored
    ensures StatusCode(h.response) == 200 <==> Accepted(file) && write.Written?
    // no other file appears, disappears or changes
    ensures h.store.Keys <= store.Keys + {file.filename}
    ensures forall name :: name in store && name != file.filename ==> name in h.store && h.store[name] == store[name]
  {
    match file.contentType
    case None => Handled(Unhandled(MissingContentType), store)
    case Some(ct) =>
      if !IsImageType(ct) then
        Handled(HttpError(400, NotAnImage), store)
      else
        match write
        case Written =>
          Handled(Uploaded(UploadedMessage, file.filename), store[file.filename := file.content])
        case WriteFailed(reason, leftOnDisk) =>
          var after := if leftOnDisk.Some? then store[file.filename := leftOnDisk.value] else store;
          Handled(HttpError(500, UploadFailedPrefix + reason), after)
  }

  /** The 400 answer comes exactly from a declared non-image type, whatever
      the file name, the bytes, the directory or the disk. */
  lemma RejectedIffNotImage(store: Store, file: UploadFile, write: WriteOutcome)
    ensures UploadImage(store, file, write).response == HttpError(400, NotAnImage)
        <==> file.contentType.Some? && !IsImageType(file.contentType.value)
  {
  }

  /** Two uploads that differ only in name, bytes, directory or disk outcome
      are gated alike. */
  lemma GateIgnoresNameAndBytes(s1: Store, s2: Store, f1: UploadFile, f2: UploadFile, w1: WriteOutcome, w2: WriteOutcome)
    requires f1.contentType == f2.contentType
    ensures StatusCode(UploadImage(s1, f1, w1).response) == 400 <==> StatusCode(UploadImage(s2, f2, w2).response) == 400
  {
  }

  /** A second successful upload under the same name leaves its own bytes,
      whatever the first one did. */
  lemma LastWriteWins(store: Store, first: UploadFile, w: WriteOutcome, second: UploadFile)
    requires first.filename == second.filename
    requires Accepted(second)
    ensures UploadImage(UploadImage(store, first, w).store, second, Written).store
         == UploadImage(store, second, Written).store
  {
  }

  /** Successful uploads under different names do not interfere. */
  lemma DistinctUploadsCommute(store: Store, a: UploadFile, b: UploadFile)
    requires Accepted(a) && Accepted(b) && a.filename != b.filename
    ensures UploadImage(UploadImage(store, a, Written).store, b, Written).store
         == UploadImage(UploadImage(store, b, Written).store, a, Written).store
  {
  }

  /** One request as it reaches the handler, with what the disk made of it. */
  datatype Request = Request(file: UploadFile, write: WriteOutcome)

  /** The upload directory after serving `reqs` in order. */
  function Replay(store: Store, reqs: seq<Request>): Store
    decreases |reqs|
  {
    if |reqs| == 0 then store
    else
      var last := reqs[|reqs| - 1];
      UploadImage(Replay(store, reqs[..|reqs| - 1]), last.file, last.write).store
  }

  /** What one request leaves in the file it names, if it touches it at all. */
  function Residue(req: Request): Option<seq<Byte>> {
    if !Accepted(req.file) then None
    else match req.write
      case Written => Some(req.file.content)
      case WriteFailed(_, leftOnDisk) => leftOnDisk
  }

  /** What the latest request touching `name` left there. */
  function LastResidue(reqs: seq<Request>, name: string): Option<seq<Byte>>
    decreases |reqs|
  {
    if |reqs| == 0 then None
    else
      var last := reqs[|reqs| - 1];
      if last.file.filename == name && Residue(last).Some? then Residue(last)
      else LastResidue(reqs[..|reqs| - 1], name)
  }

  /** Last write wins over any sequence of requests: a file holds what the
      latest request that touched it left, and is otherwise as it was. */
  lemma {:induction false} ReplayLastWriteWins(store: Store, reqs: seq<Request>, name: string)
    ensures LastResidue(reqs, name).Some? ==>
      name in Replay(store, reqs) && Replay(store, reqs)[name] == LastResidue(reqs, name).value
    ensures LastResidue(reqs, name).None? ==>
      && (name in Replay(store, reqs) <==> name in store)
      && (name in store ==> Replay(store, reqs)[name] == store[name])
    decreases |reqs|
  {
    if |reqs| > 0 {
      var prefix := reqs[..|reqs| - 1];
      var last := reqs[|reqs| - 1];
      ReplayLastWriteWins(store, prefix, name);
      var before := Replay(store, prefix);
      var h := UploadImage(before, last.file, last.write);
      if last.file.filename == name && Residue(last).Some? {
        assert Accepted(last.file);
      } else if last.file.filename == name {
        assert h.store == before;
      }
    }
  }

  /** The successful scenario: a PNG named `cat.png` is stored byte for byte. */
  lemma UploadCatPng(store: Store)
    ensures var png: seq<Byte> := [0x89, 0x50, 0x4E, 0x47];
      var h := UploadImage(store, UploadFile("cat.png", Some("image/png"), png), Written);
      && StatusCode(h.response) == 200
      && h.response == Uploaded("Image uploaded successfully", "cat.png")
      && h.store["cat.png"] == png
  {
  }

  /** The rejected scenario: a text file is refused and not stored. */
  lemma UploadNotesTxt(store: Store, bytes: seq<Byte>, write: WriteOutcome)
    requires "notes.txt" !in store
    ensures var h := UploadImage(store, UploadFile("notes.txt", Some("text/plain"), bytes), write);
      && h.response == HttpError(400, "File is not an image")
      && "notes.txt" !in h.store
  {
    assert "text/plain"[0] != ImagePrefix[0];
  }
}

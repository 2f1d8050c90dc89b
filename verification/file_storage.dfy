/** FileStorageService: saves an upload under the upload folder as
    "<videoId>_<file name>", keeping only the last path segment of the
    client-supplied name. The disk writes are recorded as effects. */
module FileStorage {
  import opened Wrappers
  import opened Exceptions
  import opened Paths

  /** The parts of an uploaded `IFormFile` the server reads. */
  datatype FormFile = FormFile(fileName: string, contentType: string, length: nat)

  const DefaultUploadFolder := "uploads"
  const InvalidFileMessage := "Arquivo inválido"

  /** What `Directory.CreateDirectory` throws, as an `ArgumentException`, for
      an empty path. */
  const EmptyPathMessage := "The value cannot be an empty string. (Parameter 'path')"

  /** The configured "Storage:UploadFolder", or "uploads" when absent. A
      configured empty string is kept as it is. */
  function UploadFolder(configured: Option<string>): string {
    configured.GetOr(DefaultUploadFolder)
  }

  /** The file-system effects of saving. */
  datatype DiskEffect = DirectoryCreated(path: string) | FileWritten(path: string, source: FormFile)

  datatype SaveOutcome = SaveOutcome(effects: seq<DiskEffect>, result: Result<string, Exception>)

  /** The name the upload is stored under. */
  function StoredFileName(videoId: string, clientFileName: string): string {
    videoId + "_" + GetFileName(clientFileName)
  }

  /** `SaveFileAsync`. The file is checked first; creating an empty-named
      folder then throws before anything is written. */
  function SaveFile(configured: Option<string>, file: Option<FormFile>, videoId: string): (out: SaveOutcome)
    ensures file.None? || file.value.length == 0 || UploadFolder(configured) == [] <==> out.result.Failure?
    ensures file.None? || file.value.length == 0 ==>
              out == SaveOutcome([], Failure(ArgumentException(InvalidFileMessage)))
    ensures file.Some? && file.value.length > 0 && UploadFolder(configured) == [] ==>
              out == SaveOutcome([], Failure(ArgumentException(EmptyPathMessage)))
    ensures out.result.Success? ==>
              && out.effects == [DirectoryCreated(UploadFolder(configured)), FileWritten(out.result.value, file.value)]
              && out.result.value == Combine(UploadFolder(configured), StoredFileName(videoId, file.value.fileName))
  {
    if file.None? || file.value.length == 0 then
      SaveOutcome([], Failure(ArgumentException(InvalidFileMessage)))
    else if UploadFolder(configured) == [] then
      SaveOutcome([], Failure(ArgumentException(EmptyPathMessage)))
    else
      var folder := UploadFolder(configured);
      var filePath := Combine(folder, StoredFileName(videoId, file.value.fileName));
      SaveOutcome([DirectoryCreated(folder), FileWritten(filePath, file.value)], Success(filePath))
  }

  /** Path-traversal guard: whatever directories the client puts in the name,
      the stored name has none (given an id without separators), so the file
      lands directly in the upload folder, and the name read back from the
      saved path is exactly "<videoId>_<last segment>". */
  lemma {:induction false} SavedDirectlyInFolder(configured: Option<string>, file: FormFile, videoId: string)
    requires file.length > 0 && UploadFolder(configured) != []
    requires Separator !in videoId
    ensures var name := StoredFileName(videoId, file.fileName);
            var folder := UploadFolder(configured);
            var path := SaveFile(configured, Some(file), videoId).result.value;
            && Separator !in name
            && GetFileName(path) == name
            && (|| (folder[|folder| - 1] != Separator && path == folder + [Separator] + name)
                || (folder[|folder| - 1] == Separator && path == folder + name))
  {
    var name := StoredFileName(videoId, file.fileName);
    var folder := UploadFolder(configured);
    StoredNameHasNoSeparator(videoId, file.fileName);
    assert SaveFile(configured, Some(file), videoId).result.value == Combine(folder, name);
    CombineSeparatorFree(folder, name);
  }

  /** With a separator-free id, the stored name has no separator at all. */
  lemma {:induction false} StoredNameHasNoSeparator(videoId: string, clientFileName: string)
    requires Separator !in videoId
    ensures var name := StoredFileName(videoId, clientFileName);
            name != [] && Separator !in name
  {
    var base := GetFileName(clientFileName);
    assert StoredFileName(videoId, clientFileName) == videoId + ("_" + base);
  }

  /** A separator-free relative name combined onto a folder sits directly in
      that folder and is the file name of the result. */
  lemma {:induction false} CombineSeparatorFree(folder: string, name: string)
    requires name != [] && Separator !in name
    ensures var path := Combine(folder, name);
            && GetFileName(path) == name
            && (|| path == folder + [Separator] + name
                || (folder != [] && folder[|folder| - 1] == Separator && path == folder + name)
                || (folder == [] && path == name))
  {
    var path := Combine(folder, name);
    if folder != [] {
      if folder[|folder| - 1] == Separator {
        assert path == folder + name;
        FileNameAfterSeparator(folder, name);
      } else {
        assert path == (folder + [Separator]) + name;
        FileNameAfterSeparator(folder + [Separator], name);
      }
    } else {
      assert path == name;
      NoSeparatorIsFileName(name);
    }
  }

  /** A name without separators is its own file name. */
  lemma {:induction false} NoSeparatorIsFileName(name: string)
    requires Separator !in name
    ensures GetFileName(name) == name
  {
    var k := LastIndexOfAny(name, {Separator});
    assert k.None?;
  }

  /** Appending a separator-free name to a directory ending in a separator. */
  lemma {:induction false} FileNameAfterSeparator(dir: string, name: string)
    requires |dir| > 0 && dir[|dir| - 1] == Separator
    requires Separator !in name
    ensures GetFileName(dir + name) == name
  {
    var path := dir + name;
    var k := LastIndexOfAny(path, {Separator});
    assert path[|dir| - 1] == Separator;
    assert forall j :: |dir| <= j < |path| ==> path[j] == name[j - |dir|];
    assert k.Some? && k.value == |dir| - 1;
    assert path[|dir|..] == name;
  }
}

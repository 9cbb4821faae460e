/** `FileUploadHelper`: where uploaded images go and the path under which a
    saved image is recorded. The resize and the write are left to a file
    system passed in; `uniqid()` is the `token` parameter. */
module FileUpload {
  import opened Wrappers
  import opened Text
  import opened Values

  /** Whether the public directory accepts the write. */
  datatype FileSystem = Writable | Unwritable

  /** The per-module upload folders, each ending in "/". */
  function Destination(): (d: map<string, string>)
    ensures d.Keys == {"category", "product"}
    ensures d["category"] == "uplode/category/" && d["product"] == "uplode/product/"
    ensures forall k :: k in d ==> |d[k]| > 0 && d[k][|d[k]| - 1] == '/'
  {
    map["category" := "uplode/category/", "product" := "uplode/product/"]
  }

  /** The file name part: "/" + module + optional "_" + token + "." + client extension. */
  function FileName(moduleName: string, addUnique: bool, token: string, extension: string): (f: string)
    ensures |f| >= 2 && f[0] == '/'
    ensures NoSlash(moduleName) && NoSlash(token) && NoSlash(extension) ==> NoSlash(f[1..])
    ensures |f| == |moduleName| + |extension| + 2 + (if addUnique then |token| + 1 else 0)
    ensures f[1..|moduleName| + 1] == moduleName
    ensures f[|f| - |extension| - 1] == '.' && f[|f| - |extension|..] == extension
    ensures addUnique ==>
      f[|moduleName| + 1] == '_' && f[|moduleName| + 2..|moduleName| + 2 + |token|] == token
  {
    var uniquePart := if addUnique then "_" + token else "";
    var f := "/" + moduleName + uniquePart + "." + extension;
    assert f[1..] == moduleName + uniquePart + "." + extension;
    f
  }

  /** With the unique part on, two different tokens never give the same
      file name for one module and extension, so uploads do not overwrite
      each other. */
  lemma FileNameSeparatesTokens(moduleName: string, t1: string, t2: string, extension: string)
    requires t1 != t2
    ensures FileName(moduleName, true, t1, extension) != FileName(moduleName, true, t2, extension)
  {
  }

  /** `insertImage`: saves the image under `path` and returns the path to
      record, which is `path` followed by the file name; the write fails when
      the file system refuses it. */
  function InsertImage(file: Upload, path: string, moduleName: string, addUnique: bool, token: string, fs: FileSystem): (r: Result<string, Fault>)
    ensures fs == Unwritable <==> r.Err?
    ensures r.Err? ==> r.error == NotWritable(path + FileName(moduleName, addUnique, token, file.clientExtension))
    ensures r.Ok? ==> IsPrefix(path + "/" + moduleName, r.value)
    ensures r.Ok? ==> |r.value| >= |path| + |moduleName| + |file.clientExtension| + 2
    ensures r.Ok? ==> r.value[|r.value| - |file.clientExtension| - 1..] == "." + file.clientExtension
  {
    var stored := path + FileName(moduleName, addUnique, token, file.clientExtension);
    if fs == Unwritable then Err(NotWritable(stored))
    else Ok(stored)
  }

  /** What both controllers do with an upload: the image is saved under
      `folder`, named after the field, and its stored path replaces the file
      under that field; without an upload the data is left alone. */
  function AttachImage(data: Input, key: string, upload: Option<Upload>, folder: string, token: string, fs: FileSystem): (r: Result<Input, Fault>)
    ensures upload.None? ==> r == Ok(data)
    ensures upload.Some? ==> (r.Ok? <==> fs == Writable)
    ensures upload.Some? && r.Ok? ==>
      && r.value.Keys == data.Keys + {key}
      && (forall k :: k in data && k != key ==> r.value[k] == data[k])
      && r.value[key].Str?
      && r.value[key].s == InsertImage(upload.value, folder, key, true, token, fs).value
  {
    match upload
    case None => Ok(data)
    case Some(file) =>
      var stored :- InsertImage(file, folder, key, true, token, fs);
      Ok(data[key := Str(stored)])
  }

  /** The image lands in `path` itself: the directory the helper creates
      (`dirname` of the stored path) is exactly the folder it was given. */
  lemma ImageLandsInPath(file: Upload, path: string, moduleName: string, addUnique: bool, token: string)
    requires NoSlash(moduleName) && NoSlash(token) && NoSlash(file.clientExtension)
    ensures DirName(InsertImage(file, path, moduleName, addUnique, token, Writable).value) == path
  {
    var f := FileName(moduleName, addUnique, token, file.clientExtension);
    assert path + f == path + "/" + f[1..];
    DirNameOfChild(path, f[1..]);
  }

  /** With the unique part on, two uploads of the same module and extension
      are stored under different paths exactly when their tokens differ. */
  lemma {:induction false} TokensSeparatePaths(file: Upload, path: string, moduleName: string, t1: string, t2: string)
    ensures InsertImage(file, path, moduleName, true, t1, Writable) == InsertImage(file, path, moduleName, true, t2, Writable) <==> t1 == t2
  {
    var head := path + "/" + moduleName + "_";
    var tail := "." + file.clientExtension;
    var p1 := InsertImage(file, path, moduleName, true, t1, Writable).value;
    var p2 := InsertImage(file, path, moduleName, true, t2, Writable).value;
    assert p1 == head + t1 + tail;
    assert p2 == head + t2 + tail;
    if p1 == p2 {
      assert |t1| == |t2|;
      assert t1 == p1[|head|..|head| + |t1|];
      assert t2 == p2[|head|..|head| + |t2|];
    }
  }

  /** With the unique part off, the stored path holds nothing between the
      module name and the extension, so a second upload to the same folder
      is stored under the same path as the first, replacing it. */
  lemma WithoutTokenPathsCoincide(a: Upload, b: Upload, path: string, moduleName: string, t1: string, t2: string)
    requires a.clientExtension == b.clientExtension
    ensures |InsertImage(a, path, moduleName, false, t1, Writable).value| == |path| + |moduleName| + |a.clientExtension| + 2
    ensures InsertImage(a, path, moduleName, false, t1, Writable) == InsertImage(b, path, moduleName, false, t2, Writable)
  {
  }
}

/** `EmojiService.get_file_desc` in
    langchain_emoji/server/emoji/emoji_service.py: where the picture of a
    chosen emoji comes from. The file system and the MinIO client are
    parameters: `readFile` stands for `open(path, "rb").read()`, `getObject`
    for the object bytes `MinioComponent.get_file_base64` encodes (`None`
    when the client raises), and `presign` for
    `MinioComponent.get_download_link`. */
module Assets {
  import opened Wrappers
  import Paths
  import Base64
  import Text

  /** `settings.dataset`: the storage mode and the dataset's folder name. */
  datatype DatasetSettings = DatasetSettings(mode: string, name: string)

  /** `EmojiDetail`: an optional download link and the picture in base64. */
  datatype EmojiDetail = EmojiDetail(downloadLink: Option<string>, base64: string)

  /** How `get_file_desc` can fail: `open` raises for a file it cannot
      read, and pydantic rejects `base64=None` because the field is a
      required `str`. */
  datatype AssetError = FileNotReadable(path: Paths.Path) | MissingBase64(filename: string)

  /** The store behind the service: the project root, the configured
      local data folder, and the three I/O operations. */
  datatype Storage = Storage(
    root: Paths.Path,
    localDataFolder: string,
    readFile: Paths.Path -> Option<seq<Base64.Byte>>,
    getObject: string -> Option<seq<Base64.Byte>>,
    presign: string -> Option<string>)

  /** `local_data_path / dataset.name / "emo" / filename`. */
  function LocalFile(storage: Storage, dataset: DatasetSettings, filename: string): Paths.Path {
    Paths.Div(Paths.Div(Paths.Div(Paths.LocalDataPath(storage.root, storage.localDataFolder), dataset.name), "emo"), filename)
  }

  /** `get_file_desc`; `Success(None)` is the Python `None` returned when
      the mode is neither `"local"` nor `"minio"`. */
  function GetFileDesc(storage: Storage, dataset: DatasetSettings, filename: string): (r: Result<Option<EmojiDetail>, AssetError>)
    ensures dataset.mode == "local" ==>
              var path := LocalFile(storage, dataset, filename);
              match storage.readFile(path)
              case None => r == Failure(FileNotReadable(path))
              case Some(bytes) =>
                && r.Success? && r.value.Some?
                && r.value.value.downloadLink.None?
                && Base64.Decode(r.value.value.base64) == Some(bytes)
                && |r.value.value.base64| == 4 * ((|bytes| + 2) / 3)
    ensures dataset.mode == "minio" ==>
              match storage.getObject(filename)
              case None => r == Failure(MissingBase64(filename))
              case Some(bytes) =>
                && r.Success? && r.value.Some?
                && r.value.value.downloadLink == storage.presign(filename)
                && Base64.Decode(r.value.value.base64) == Some(bytes)
    ensures dataset.mode != "local" && dataset.mode != "minio" ==> r == Success(None)
  {
    if dataset.mode == "local" then
      var path := LocalFile(storage, dataset, filename);
      match storage.readFile(path)
      case None => Failure(FileNotReadable(path))
      case Some(bytes) =>
        Base64.DecodeEncode(bytes);
        Success(Some(EmojiDetail(downloadLink := None, base64 := Base64.Encode(bytes))))
    else if dataset.mode == "minio" then
      match storage.getObject(filename)
      case None => Failure(MissingBase64(filename))
      case Some(bytes) =>
        Base64.DecodeEncode(bytes);
        Success(Some(EmojiDetail(downloadLink := storage.presign(filename), base64 := Base64.Encode(bytes))))
    else Success(None)
  }

  /** The two MinIO lookups are independent: a missing download link
      does not fail the request, and the link does not affect the picture. */
  lemma MinioLinkIndependent(storage: Storage, dataset: DatasetSettings, filename: string, presign: string -> Option<string>)
    requires dataset.mode == "minio"
    ensures var r1 := GetFileDesc(storage, dataset, filename);
            var r2 := GetFileDesc(storage.(presign := presign), dataset, filename);
            && (r1.Success? <==> r2.Success?)
            && (r1.Success? ==> r1.value.value.base64 == r2.value.value.base64)
  {
  }

  /** The components of a relative file name are appended after the data
      folder, the dataset name and `emo`. `pathlib` does not resolve `..`,
      so this is not a confinement: see `DotDotKept`. */
  lemma LocalFileUnderDataset(storage: Storage, dataset: DatasetSettings, filename: string)
    requires !(|filename| > 0 && filename[0] == '/')
    requires !(|dataset.name| > 0 && dataset.name[0] == '/')
    ensures var data := Paths.LocalDataPath(storage.root, storage.localDataFolder);
            var path := LocalFile(storage, dataset, filename);
            && path.absolute == data.absolute
            && path.parts == data.parts + Paths.ParsePath(dataset.name).parts + ["emo"] + Paths.ParsePath(filename).parts
  {
    var data := Paths.LocalDataPath(storage.root, storage.localDataFolder);
    var p1 := Paths.Div(data, dataset.name);
    assert p1.parts == data.parts + Paths.ParsePath(dataset.name).parts;
    var emo := Paths.ParsePath("emo");
    assert Paths.SplitSlash("emo") == ["emo"];
    assert emo == Paths.Path(false, ["emo"]);
    var p2 := Paths.Join(p1, emo);
    assert p2.parts == p1.parts + ["emo"];
  }

  /** The file name the model returns is not confined to the data folder:
      one starting with `/` replaces the whole path, since `pathlib` drops
      the left operand of `/` when the right one is absolute. */
  lemma AbsoluteFilenameEscapes(storage: Storage, dataset: DatasetSettings, filename: string)
    requires |filename| > 0 && filename[0] == '/'
    ensures LocalFile(storage, dataset, filename) == Paths.ParsePath(filename)
  {
  }

  /** Nor does a relative name stay inside `emo`: a `..` component is kept
      as it is, so `../x` names `<data>/<dataset>/emo/../x`, which the file
      system reads as `<data>/<dataset>/x`. */
  lemma DotDotKept(storage: Storage, dataset: DatasetSettings, x: string)
    requires Paths.IsPart(x)
    requires !(|dataset.name| > 0 && dataset.name[0] == '/')
    ensures var data := Paths.LocalDataPath(storage.root, storage.localDataFolder);
            LocalFile(storage, dataset, "../" + x).parts
            == data.parts + Paths.ParsePath(dataset.name).parts + ["emo", "..", x]
  {
    var xs := ["..", x];
    JoinTwo("..", x, "/");
    Paths.ParsePathOfParts(xs);
    var f := "../" + x;
    assert ".." + "/" + x == f;
    assert Paths.ParsePath(f).parts == xs;
    assert f[0] == '.';
    LocalFileUnderDataset(storage, dataset, f);
    var front := Paths.LocalDataPath(storage.root, storage.localDataFolder).parts + Paths.ParsePath(dataset.name).parts;
    assert front + ["emo"] + xs == front + ["emo", "..", x];
  }

  lemma JoinTwo(a: string, b: string, sep: string)
    ensures Text.Join([a, b], sep) == a + sep + b
  {
    assert [a, b][..1] == [a];
  }
}

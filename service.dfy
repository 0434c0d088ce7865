/** ImageService: the store of uploaded images. The storage root is a map from
    image id to that image's directory, and a directory maps file names to
    their contents. An upload writes the original, one WebP variant per entry
    of the size table and the metadata record; reads look files up by id;
    delete removes a whole directory. */
module Service {
  import opened Models
  import opened DotNet
  import opened Guids
  import opened Helpers
  import opened Exif

  /** The contents of a stored file: bytes, or the record in metadata.json. */
  datatype FileContent = Blob(bytes: Bytes) | Record(metadata: ImageMetadata)

  type Directory = map<string, FileContent>

  /** The storage root: id to directory. */
  type Store = map<string, Directory>

  /** The exceptions the service raises. */
  datatype ServiceError =
    | ArgumentError(message: string)   // ArgumentException
    | FileNotFound                     // FileNotFoundException
    | DeserializationFailed            // metadata.json does not hold a record
    | DecodeError                      // the codec cannot decode the upload

  datatype Result<T> = Ok(value: T) | Err(error: ServiceError)

  /** A file handed back to the caller with its content type. */
  datatype FileStreamResult = FileStreamResult(content: FileContent, contentType: string)

  const StorageFolder: string := "storage"
  const MetadataFileName: string := "metadata.json"
  const WebpContentType: string := "image/webp"
  const InvalidFileMessage: string := "Invalid file format or size"
  const InvalidSizeMessage: string := "Invalid size parameter"

  /** The stored original keeps the extension of the uploaded name as written. */
  function OriginalFileName(fileName: string): string {
    "original" + GetExtension(fileName)
  }

  function VariantFileName(key: string): string {
    key + ".webp"
  }

  function ImageUrl(id: string, key: string): string {
    "/api/images/" + id + "/" + key
  }

  function MetadataUrl(id: string): string {
    "/api/images/" + id + "/metadata"
  }

  /** GetRelativePath: the path of a file of an image's directory relative to
      the content root. */
  function GetRelativePath(id: string, fileName: string): string {
    StorageFolder + "/" + id + "/" + fileName
  }

  /** ImageSize.ToString(): the member's name, or the number for a value that
      names no member. */
  function ImageSizeName(size: ImageSize): string {
    if size == Phone then "Phone"
    else if size == Tablet then "Tablet"
    else if size == Desktop then "Desktop"
    else IntToString(size as int)
  }

  // ---------------------------------------------------------------------
  // Reference definitions of the operations

  /** What GetResizedImage answers: an unknown size name first, then a missing
      file, else the file as WebP. */
  function ResizedImageOf(store: Store, id: string, size: ImageSize): Result<FileStreamResult> {
    var sizeString := ToLowerInvariant(ImageSizeName(size));
    if sizeString !in ImageSizes then Err(ArgumentError(InvalidSizeMessage))
    else
      var fileName := VariantFileName(sizeString);
      if id !in store || fileName !in store[id] then Err(FileNotFound)
      else Ok(FileStreamResult(store[id][fileName], WebpContentType))
  }

  /** What GetImageMetadata answers. */
  function MetadataOf(store: Store, id: string): Result<ImageMetadata> {
    if id !in store || MetadataFileName !in store[id] then Err(FileNotFound)
    else match store[id][MetadataFileName]
      case Record(m) => Ok(m)
      case Blob(_) => Err(DeserializationFailed)
  }

  /** Every key in keys is a size-table entry whose variant the codec produces. */
  predicate AllDecode(keys: seq<string>, content: Bytes, codec: Codec) {
    forall j :: 0 <= j < |keys| ==> keys[j] in ImageSizes && codec(content, ImageSizes[keys[j]]).Some?
  }

  /** How many entries of the size table, in enumeration order, are produced
      before the first one the codec fails on. */
  function DecodedCount(content: Bytes, codec: Codec): (n: nat)
    ensures n <= |SizeKeys|
    ensures AllDecode(SizeKeys[..n], content, codec)
    ensures n < |SizeKeys| ==> codec(content, ImageSizes[SizeKeys[n]]).None?
  {
    DecodedFrom(content, codec, 0)
  }

  function DecodedFrom(content: Bytes, codec: Codec, i: nat): (n: nat)
    requires i <= |SizeKeys| && AllDecode(SizeKeys[..i], content, codec)
    ensures i <= n <= |SizeKeys|
    ensures AllDecode(SizeKeys[..n], content, codec)
    ensures n < |SizeKeys| ==> codec(content, ImageSizes[SizeKeys[n]]).None?
    decreases |SizeKeys| - i
  {
    if i == |SizeKeys| then i
    else if codec(content, ImageSizes[SizeKeys[i]]).None? then i
    else
      assert SizeKeys[..i + 1] == SizeKeys[..i] + [SizeKeys[i]];
      DecodedFrom(content, codec, i + 1)
  }

  /** The variant files for keys: "<key>.webp" holding the codec's output. */
  function VariantFiles(keys: seq<string>, content: Bytes, codec: Codec): Directory
    requires AllDecode(keys, content, codec)
  {
    if keys == [] then map[]
    else
      var key := keys[|keys| - 1];
      VariantFiles(keys[..|keys| - 1], content, codec)[VariantFileName(key) := Blob(codec(content, ImageSizes[key]).value)]
  }

  /** The switch on the size key: set the path field that key names. */
  function WithVariantPath(m: ImageMetadata, key: string, path: string): ImageMetadata {
    if key == "phone" then m.(phonePath := path)
    else if key == "tablet" then m.(tabletPath := path)
    else if key == "desktop" then m.(desktopPath := path)
    else m
  }

  function WithVariantPaths(m: ImageMetadata, id: string, keys: seq<string>): ImageMetadata {
    if keys == [] then m
    else
      var key := keys[|keys| - 1];
      WithVariantPath(WithVariantPaths(m, id, keys[..|keys| - 1]), key, GetRelativePath(id, VariantFileName(key)))
  }

  /** The extracted record with id, size and content type stamped on and the
      original's path filled in. */
  function StampedRecord(id: string, file: FormFile, reading: MetadataReading, now: DateTime): ImageMetadata {
    ExtractedMetadata(reading, file.fileName, now).(
      id := id, fileSize := file.Length(), contentType := file.contentType,
      originalPath := GetRelativePath(id, OriginalFileName(file.fileName)))
  }

  /** The record a completed upload writes to metadata.json. */
  function StoredRecord(id: string, file: FormFile, reading: MetadataReading, now: DateTime): ImageMetadata {
    WithVariantPaths(StampedRecord(id, file, reading, now), id, SizeKeys)
  }

  /** The directory as Directory.CreateDirectory leaves it: an existing one is kept. */
  function ExistingOrEmpty(store: Store, id: string): Directory {
    if id in store then store[id] else map[]
  }

  /** The storage root after an admissible upload under id: the original, the
      variants up to the first the codec fails on, and the record only when
      every variant was written. */
  function UploadedStore(store: Store, id: string, file: FormFile, reading: MetadataReading,
                         now: DateTime, codec: Codec): Store
  {
    var n := DecodedCount(file.content, codec);
    var files := ExistingOrEmpty(store, id)[OriginalFileName(file.fileName) := Blob(file.content)]
                 + VariantFiles(SizeKeys[..n], file.content, codec);
    store[id := if n == |SizeKeys| then files[MetadataFileName := Record(StoredRecord(id, file, reading, now))] else files]
  }

  /** The answer to an admissible upload under id. */
  function UploadResult(id: string, file: FormFile, codec: Codec): Result<UploadImageResponse> {
    if DecodedCount(file.content, codec) == |SizeKeys| then
      Ok(UploadImageResponse(id, file.fileName, map k | k in SizeKeys :: ImageUrl(id, k), MetadataUrl(id)))
    else Err(DecodeError)
  }

  /** Appending a key to the processed prefix adds its variant file. */
  lemma VariantFilesStep(keys: seq<string>, key: string, content: Bytes, codec: Codec)
    requires AllDecode(keys, content, codec)
    requires key in ImageSizes && codec(content, ImageSizes[key]).Some?
    ensures AllDecode(keys + [key], content, codec)
    ensures VariantFiles(keys + [key], content, codec) ==
      VariantFiles(keys, content, codec)[VariantFileName(key) := Blob(codec(content, ImageSizes[key]).value)]
  {
  }

  lemma WithVariantPathsStep(m: ImageMetadata, id: string, keys: seq<string>, key: string)
    ensures WithVariantPaths(m, id, keys + [key]) ==
      WithVariantPath(WithVariantPaths(m, id, keys), key, GetRelativePath(id, VariantFileName(key)))
  {
  }

  lemma UrlsStep(id: string, i: nat)
    requires i < |SizeKeys|
    ensures (map k | k in SizeKeys[..i] :: ImageUrl(id, k))[SizeKeys[i] := ImageUrl(id, SizeKeys[i])] ==
      map k | k in SizeKeys[..i + 1] :: ImageUrl(id, k)
  {
  }

  lemma UpdateTwice(s: Store, id: string, a: Directory, b: Directory)
    ensures s[id := a][id := b] == s[id := b]
  {
  }

  lemma UnionUpdate(a: Directory, b: Directory, k: string, v: FileContent)
    ensures (a + b)[k := v] == a + b[k := v]
  {
  }

  // ---------------------------------------------------------------------
  // The service

  class ImageService {
    /** The directories under the storage root. */
    var storage: Store
    /** ConvertToWebpAndResizeAsync. */
    const codec: Codec

    /** The storage root is created if missing; what is already there stays. */
    constructor (existing: Store, codec: Codec)
      ensures storage == existing && this.codec == codec
    {
      storage := existing;
      this.codec := codec;
    }

    /** Directory.CreateDirectory under the storage root: a no-op when it exists. */
    method CreateDirectory(id: string)
      modifies this
      ensures storage == old(storage)[id := ExistingOrEmpty(old(storage), id)]
    {
      if id !in storage {
        storage := storage[id := map[]];
      }
    }

    /** Write one file of an existing directory, replacing what was there. */
    method WriteFile(id: string, fileName: string, content: FileContent)
      requires id in storage
      modifies this
      ensures storage == old(storage)[id := old(storage)[id][fileName := content]]
    {
      storage := storage[id := storage[id][fileName := content]];
    }

    /** File.Exists on a file of an image's directory. */
    predicate FileExists(id: string, fileName: string)
      reads this
    {
      id in storage && fileName in storage[id]
    }

    method UploadImage(file: FormFile, guid: Guid, reading: MetadataReading, now: DateTime)
      returns (r: Result<UploadImageResponse>)
      modifies this
      ensures !IsValidImageFile(file.fileName, file.Length()) ==>
        r == Err(ArgumentError(InvalidFileMessage)) && storage == old(storage)
      ensures IsValidImageFile(file.fileName, file.Length()) ==>
        r == UploadResult(FormatN(guid), file, codec) &&
        storage == UploadedStore(old(storage), FormatN(guid), file, reading, now, codec)
    {
      if !IsValidImageFile(file.fileName, file.Length()) {
        return Err(ArgumentError(InvalidFileMessage));
      }

      var id := FormatN(guid);
      CreateDirectory(id);

      var metadata := ExtractMetadata(reading, file.fileName, now);
      metadata := metadata.(id := id, fileSize := file.Length(), contentType := file.contentType);

      var originalName := OriginalFileName(file.fileName);
      ghost var created := ExistingOrEmpty(old(storage), id);
      ghost var withOriginal := created[originalName := Blob(file.content)];
      WriteFile(id, originalName, Blob(file.content));
      UpdateTwice(old(storage), id, created, withOriginal);
      metadata := metadata.(originalPath := GetRelativePath(id, originalName));
      assert metadata == StampedRecord(id, file, reading, now);

      var n, urls;
      n, metadata, urls := SaveResizedVersions(id, file.content, metadata);
      ghost var files := withOriginal + VariantFiles(SizeKeys[..n], file.content, codec);
      UpdateTwice(old(storage), id, withOriginal, files);
      if n < |SizeKeys| {
        return Err(DecodeError);
      }

      WriteFile(id, MetadataFileName, Record(metadata));
      UpdateTwice(old(storage), id, files, files[MetadataFileName := Record(metadata)]);
      r := Ok(UploadImageResponse(id, file.fileName, urls, MetadataUrl(id)));
    }

    /** The loop over the size table: write "<key>.webp", fill the key's path
        field and its URL; stop at the first variant the codec cannot produce. */
    method SaveResizedVersions(id: string, content: Bytes, stamped: ImageMetadata)
      returns (n: nat, metadata: ImageMetadata, urls: map<string, string>)
      requires id in storage
      modifies this
      ensures n == DecodedCount(content, codec)
      ensures storage == old(storage)[id := old(storage)[id] + VariantFiles(SizeKeys[..n], content, codec)]
      ensures n == |SizeKeys| ==>
        metadata == WithVariantPaths(stamped, id, SizeKeys) &&
        urls == map k | k in SizeKeys :: ImageUrl(id, k)
    {
      metadata := stamped;
      urls := map[];
      n := 0;
      assert old(storage)[id] + VariantFiles(SizeKeys[..0], content, codec) == old(storage)[id];
      while n < |SizeKeys|
        invariant 0 <= n <= |SizeKeys|
        invariant AllDecode(SizeKeys[..n], content, codec)
        invariant storage == old(storage)[id := old(storage)[id] + VariantFiles(SizeKeys[..n], content, codec)]
        invariant metadata == WithVariantPaths(stamped, id, SizeKeys[..n])
        invariant urls == map k | k in SizeKeys[..n] :: ImageUrl(id, k)
      {
        var resized := codec(content, ImageSizes[SizeKeys[n]]);
        if resized.None? {
          assert DecodedCount(content, codec) == n;
          return;
        }
        metadata, urls := SaveResizedVersion(id, n, content, resized.value, stamped, metadata, urls,
                                             old(storage), old(storage)[id]);
        n := n + 1;
      }
      assert SizeKeys[..n] == SizeKeys;
    }

    /** One pass of the loop: write "<key>.webp", set the key's path field and
        add its URL. */
    method SaveResizedVersion(id: string, n: nat, content: Bytes, resized: Bytes, ghost stamped: ImageMetadata,
                              metadata: ImageMetadata, urls: map<string, string>,
                              ghost root: Store, ghost base: Directory)
      returns (metadata': ImageMetadata, urls': map<string, string>)
      requires n < |SizeKeys| && AllDecode(SizeKeys[..n], content, codec)
      requires codec(content, ImageSizes[SizeKeys[n]]) == Some(resized)
      requires storage == root[id := base + VariantFiles(SizeKeys[..n], content, codec)]
      requires metadata == WithVariantPaths(stamped, id, SizeKeys[..n])
      requires urls == map k | k in SizeKeys[..n] :: ImageUrl(id, k)
      modifies this
      ensures AllDecode(SizeKeys[..n + 1], content, codec)
      ensures storage == root[id := base + VariantFiles(SizeKeys[..n + 1], content, codec)]
      ensures metadata' == WithVariantPaths(stamped, id, SizeKeys[..n + 1])
      ensures urls' == map k | k in SizeKeys[..n + 1] :: ImageUrl(id, k)
    {
      var key := SizeKeys[n];
      var resizedName := VariantFileName(key);
      assert SizeKeys[..n + 1] == SizeKeys[..n] + [key];
      VariantFilesStep(SizeKeys[..n], key, content, codec);
      WithVariantPathsStep(stamped, id, SizeKeys[..n], key);
      UrlsStep(id, n);
      UnionUpdate(base, VariantFiles(SizeKeys[..n], content, codec), resizedName, Blob(resized));
      WriteFile(id, resizedName, Blob(resized));
      UpdateTwice(root, id, base + VariantFiles(SizeKeys[..n], content, codec),
                  base + VariantFiles(SizeKeys[..n + 1], content, codec));
      metadata' := WithVariantPath(metadata, key, GetRelativePath(id, resizedName));
      urls' := urls[key := ImageUrl(id, key)];
    }

    method GetResizedImage(id: string, size: ImageSize) returns (r: Result<FileStreamResult>)
      ensures r == ResizedImageOf(storage, id, size)
    {
      var sizeString := ToLowerInvariant(ImageSizeName(size));
      if sizeString !in ImageSizes {
        return Err(ArgumentError(InvalidSizeMessage));
      }
      var imageName := VariantFileName(sizeString);
      if !FileExists(id, imageName) {
        return Err(FileNotFound);
      }
      r := Ok(FileStreamResult(storage[id][imageName], WebpContentType));
    }

    method GetImageMetadata(id: string) returns (r: Result<ImageMetadata>)
      ensures r == MetadataOf(storage, id)
    {
      if !FileExists(id, MetadataFileName) {
        return Err(FileNotFound);
      }
      match storage[id][MetadataFileName] {
        case Record(m) => r := Ok(m);
        case Blob(_) => r := Err(DeserializationFailed);
      }
    }

    /** Directory.Delete(directory, true): the whole directory, whatever it holds. */
    method DeleteImage(id: string) returns (deleted: bool)
      modifies this
      ensures deleted == (id in old(storage))
      ensures storage == old(storage) - {id}
    {
      if id !in storage {
        return false;
      }
      storage := storage - {id};
      return true;
    }
  }
}

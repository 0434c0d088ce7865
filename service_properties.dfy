/** What the image service promises across operations: the exact file set of
    an upload, the record it writes and reads back, the shapes of paths and
    URLs, the error precedence of the reads, and delete's boolean. */
module ServiceProperties {
  import opened Models
  import opened DotNet
  import opened Guids
  import opened Helpers
  import opened Exif
  import opened Service

  // ---------------------------------------------------------------------
  // Names and paths

  /** A generated id is 32 lower-case hex digits: no separator, no dot. */
  lemma GeneratedIdIsOneSegment(g: Guid)
    ensures |FormatN(g)| == 32
    ensures IsPlain(FormatN(g))
    ensures forall i :: 0 <= i < 32 ==> IsLowerHexDigit(FormatN(g)[i])
  {
  }

  lemma RelativePathLayout(id: string, fileName: string)
    ensures var p := GetRelativePath(id, fileName);
      |p| == 9 + |id| + |fileName| && p[8 + |id|] == '/' &&
      (forall i :: 0 <= i < |id| ==> p[8 + i] == id[i]) &&
      p[8..8 + |id|] == id && p[9 + |id|..] == fileName
  {
  }

  /** Relative paths determine the id and the file name when ids hold no separator. */
  lemma RelativePathInjective(id1: string, fileName1: string, id2: string, fileName2: string)
    requires forall i :: 0 <= i < |id1| ==> !IsDirectorySeparator(id1[i])
    requires forall i :: 0 <= i < |id2| ==> !IsDirectorySeparator(id2[i])
    requires GetRelativePath(id1, fileName1) == GetRelativePath(id2, fileName2)
    ensures id1 == id2 && fileName1 == fileName2
  {
    var p := GetRelativePath(id1, fileName1);
    RelativePathLayout(id1, fileName1);
    RelativePathLayout(id2, fileName2);
    assert |id1| == |id2|;
    assert p[8..8 + |id1|] == id1 && p[8..8 + |id2|] == id2;
    assert p[9 + |id1|..] == fileName1 && p[9 + |id2|..] == fileName2;
  }

  /** The five names an upload writes are pairwise distinct. */
  lemma UploadNamesDistinct(fileName: string)
    ensures OriginalFileName(fileName) != MetadataFileName
    ensures forall k :: k in ImageSizes ==> OriginalFileName(fileName) != VariantFileName(k)
    ensures forall k :: k in ImageSizes ==> MetadataFileName != VariantFileName(k)
    ensures VariantFileName("phone") != VariantFileName("tablet")
    ensures VariantFileName("phone") != VariantFileName("desktop")
    ensures VariantFileName("tablet") != VariantFileName("desktop")
    ensures OriginalFileName(fileName) !in {"phone.webp", "tablet.webp", "desktop.webp"}
  {
    assert OriginalFileName(fileName)[0] == 'o';
    assert MetadataFileName[0] == 'm';
    forall k | k in ImageSizes
      ensures OriginalFileName(fileName) != VariantFileName(k) && MetadataFileName != VariantFileName(k)
    {
      assert VariantFileName(k)[0] == k[0];
    }
  }

  // ---------------------------------------------------------------------
  // The size table seen from the ImageSize enumeration

  /** Phone, Tablet and Desktop name the table's keys, in enumeration order. */
  lemma ConfiguredSizeNames()
    ensures ToLowerInvariant(ImageSizeName(Phone)) == SizeKeys[0] == "phone"
    ensures ToLowerInvariant(ImageSizeName(Tablet)) == SizeKeys[1] == "tablet"
    ensures ToLowerInvariant(ImageSizeName(Desktop)) == SizeKeys[2] == "desktop"
  {
  }

  /** Any other ImageSize value prints as a number, which is no table key. */
  lemma {:induction false} UndefinedSizeHasNoKey(size: ImageSize)
    requires size != Phone && size != Tablet && size != Desktop
    ensures ToLowerInvariant(ImageSizeName(size)) !in ImageSizes
  {
    var name := ToLowerInvariant(ImageSizeName(size));
    var printed := IntToString(size as int);
    assert name[0] == LowerChar(printed[0]) == printed[0];
    assert "phone"[0] == 'p' && "tablet"[0] == 't' && "desktop"[0] == 'd';
  }

  /** GetResizedImage rejects an undefined size before it looks at the store. */
  lemma InvalidSizeRejected(store: Store, id: string, size: ImageSize)
    requires size != Phone && size != Tablet && size != Desktop
    ensures ResizedImageOf(store, id, size) == Err(ArgumentError(InvalidSizeMessage))
  {
    UndefinedSizeHasNoKey(size);
  }

  /** For a defined size: FileNotFound when "<key>.webp" is missing under id,
      otherwise that file as image/webp. */
  lemma ConfiguredSizeLookup(store: Store, id: string, size: ImageSize)
    requires size == Phone || size == Tablet || size == Desktop
    ensures var fileName := if size == Phone then "phone.webp" else if size == Tablet then "tablet.webp" else "desktop.webp";
      fileName == VariantFileName(SizeKeys[size as int]) &&
      ResizedImageOf(store, id, size) ==
        if id in store && fileName in store[id] then Ok(FileStreamResult(store[id][fileName], WebpContentType))
        else Err(FileNotFound)
  {
    ConfiguredSizeNames();
    assert VariantFileName("phone") == "phone.webp";
    assert VariantFileName("tablet") == "tablet.webp";
    assert VariantFileName("desktop") == "desktop.webp";
  }

  // ---------------------------------------------------------------------
  // Upload

  /** The codec produces a variant for every box of the size table. */
  predicate DecodesEveryBox(content: Bytes, codec: Codec) {
    forall k :: k in ImageSizes ==> codec(content, ImageSizes[k]).Some?
  }

  /** The upload loop runs to the end exactly when the codec produces every box. */
  lemma DecodedCountFull(content: Bytes, codec: Codec)
    ensures DecodedCount(content, codec) == |SizeKeys| <==> DecodesEveryBox(content, codec)
  {
    var n := DecodedCount(content, codec);
    if n == |SizeKeys| {
      assert SizeKeys[..n] == SizeKeys;
      forall k | k in ImageSizes ensures codec(content, ImageSizes[k]).Some? {
        assert k == SizeKeys[0] || k == SizeKeys[1] || k == SizeKeys[2];
      }
    } else {
      assert SizeKeys[n] in ImageSizes;
    }
  }

  lemma AllVariantFiles(content: Bytes, codec: Codec)
    requires DecodesEveryBox(content, codec)
    ensures AllDecode(SizeKeys, content, codec)
    ensures VariantFiles(SizeKeys, content, codec) == map[
      "phone.webp" := Blob(codec(content, ImageSizes["phone"]).value),
      "tablet.webp" := Blob(codec(content, ImageSizes["tablet"]).value),
      "desktop.webp" := Blob(codec(content, ImageSizes["desktop"]).value)]
  {
    var empty: seq<string> := [];
    assert ["phone"] == empty + ["phone"];
    assert ["phone", "tablet"] == ["phone"] + ["tablet"];
    assert SizeKeys == ["phone", "tablet"] + ["desktop"];
    VariantFilesStep(empty, "phone", content, codec);
    VariantFilesStep(["phone"], "tablet", content, codec);
    VariantFilesStep(["phone", "tablet"], "desktop", content, codec);
    assert VariantFileName("phone") == "phone.webp";
    assert VariantFileName("tablet") == "tablet.webp";
    assert VariantFileName("desktop") == "desktop.webp";
  }

  lemma AllVariantPaths(m: ImageMetadata, id: string)
    ensures WithVariantPaths(m, id, SizeKeys) == m.(
      phonePath := GetRelativePath(id, "phone.webp"),
      tabletPath := GetRelativePath(id, "tablet.webp"),
      desktopPath := GetRelativePath(id, "desktop.webp"))
  {
    var empty: seq<string> := [];
    assert ["phone"] == empty + ["phone"];
    assert ["phone", "tablet"] == ["phone"] + ["tablet"];
    assert SizeKeys == ["phone", "tablet"] + ["desktop"];
    WithVariantPathsStep(m, id, empty, "phone");
    WithVariantPathsStep(m, id, ["phone"], "tablet");
    WithVariantPathsStep(m, id, ["phone", "tablet"], "desktop");
  }

  lemma {:induction false} VariantFilesAreWebp(keys: seq<string>, content: Bytes, codec: Codec)
    requires AllDecode(keys, content, codec)
    ensures forall f :: f in VariantFiles(keys, content, codec) ==> exists k :: k in ImageSizes && f == VariantFileName(k)
  {
    if keys != [] {
      var key := keys[|keys| - 1];
      assert AllDecode(keys[..|keys| - 1], content, codec) by {
        forall j | 0 <= j < |keys| - 1 ensures keys[..|keys| - 1][j] == keys[j] { }
      }
      VariantFilesAreWebp(keys[..|keys| - 1], content, codec);
      assert key in ImageSizes;
    }
  }

  /** A complete upload writes the original, the three variants and the
      record into the id's directory, with these contents. */
  lemma UploadedFiles(store: Store, id: string, file: FormFile, reading: MetadataReading,
                      now: DateTime, codec: Codec)
    requires DecodesEveryBox(file.content, codec)
    ensures var dir := UploadedStore(store, id, file, reading, now, codec)[id];
      dir.Keys == ExistingOrEmpty(store, id).Keys +
        {OriginalFileName(file.fileName), "phone.webp", "tablet.webp", "desktop.webp", MetadataFileName} &&
      dir[OriginalFileName(file.fileName)] == Blob(file.content) &&
      dir["phone.webp"] == Blob(codec(file.content, ImageSizes["phone"]).value) &&
      dir["tablet.webp"] == Blob(codec(file.content, ImageSizes["tablet"]).value) &&
      dir["desktop.webp"] == Blob(codec(file.content, ImageSizes["desktop"]).value) &&
      dir[MetadataFileName] == Record(StoredRecord(id, file, reading, now))
  {
    CompleteUploadDirectory(store, id, file, reading, now, codec);
    UploadNamesDistinct(file.fileName);
    FiveFileLayout(ExistingOrEmpty(store, id), OriginalFileName(file.fileName), Blob(file.content),
      Blob(codec(file.content, ImageSizes["phone"]).value),
      Blob(codec(file.content, ImageSizes["tablet"]).value),
      Blob(codec(file.content, ImageSizes["desktop"]).value),
      Record(StoredRecord(id, file, reading, now)));
  }

  /** The three variants of a complete upload, as GetResizedImage finds them. */
  lemma UploadedVariants(store: Store, id: string, file: FormFile, reading: MetadataReading,
                         now: DateTime, codec: Codec)
    requires DecodesEveryBox(file.content, codec)
    ensures var after := UploadedStore(store, id, file, reading, now, codec);
      id in after &&
      "phone.webp" in after[id] && after[id]["phone.webp"] == Blob(codec(file.content, ImageSizes["phone"]).value) &&
      "tablet.webp" in after[id] && after[id]["tablet.webp"] == Blob(codec(file.content, ImageSizes["tablet"]).value) &&
      "desktop.webp" in after[id] && after[id]["desktop.webp"] == Blob(codec(file.content, ImageSizes["desktop"]).value)
  {
    UploadedFiles(store, id, file, reading, now, codec);
  }

  /** Under an unused id, those five files are all the directory holds. */
  lemma UploadedFileSet(store: Store, g: Guid, file: FormFile, reading: MetadataReading,
                        now: DateTime, codec: Codec)
    requires DecodesEveryBox(file.content, codec)
    requires FormatN(g) !in store
    ensures UploadedStore(store, FormatN(g), file, reading, now, codec)[FormatN(g)].Keys ==
      {OriginalFileName(file.fileName), "phone.webp", "tablet.webp", "desktop.webp", MetadataFileName}
  {
    UploadedFiles(store, FormatN(g), file, reading, now, codec);
  }

  /** A complete upload's directory: what was there, the original, the three
      variants, then the record. */
  lemma CompleteUploadDirectory(store: Store, id: string, file: FormFile, reading: MetadataReading,
                                now: DateTime, codec: Codec)
    requires DecodesEveryBox(file.content, codec)
    ensures UploadedStore(store, id, file, reading, now, codec)[id] ==
      (ExistingOrEmpty(store, id)[OriginalFileName(file.fileName) := Blob(file.content)]
       + map["phone.webp" := Blob(codec(file.content, ImageSizes["phone"]).value),
             "tablet.webp" := Blob(codec(file.content, ImageSizes["tablet"]).value),
             "desktop.webp" := Blob(codec(file.content, ImageSizes["desktop"]).value)]
      )[MetadataFileName := Record(StoredRecord(id, file, reading, now))]
  {
    DecodedCountFull(file.content, codec);
    assert SizeKeys[..|SizeKeys|] == SizeKeys;
    AllVariantFiles(file.content, codec);
  }

  /** Where the five writes of an upload land in a directory. */
  lemma FiveFileLayout(existing: Directory, original: string,
                       o: FileContent, p: FileContent, t: FileContent, d: FileContent, r: FileContent)
    requires original !in {"phone.webp", "tablet.webp", "desktop.webp", MetadataFileName}
    ensures var dir := (existing[original := o]
                        + map["phone.webp" := p, "tablet.webp" := t, "desktop.webp" := d])[MetadataFileName := r];
      dir.Keys == existing.Keys + {original, "phone.webp", "tablet.webp", "desktop.webp", MetadataFileName} &&
      dir[original] == o && dir["phone.webp"] == p && dir["tablet.webp"] == t && dir["desktop.webp"] == d &&
      dir[MetadataFileName] == r
  {
  }

  /** An upload changes only the directory of its own id. */
  lemma UploadLeavesOtherIds(store: Store, id: string, file: FormFile, reading: MetadataReading,
                             now: DateTime, codec: Codec, other: string)
    requires other != id
    ensures var after := UploadedStore(store, id, file, reading, now, codec);
      (other in after <==> other in store) && (other in store ==> after[other] == store[other])
  {
  }

  /** A directory that already exists under the id is written into, not replaced:
      its other files stay. */
  lemma UploadKeepsUnrelatedFiles(store: Store, id: string, file: FormFile, reading: MetadataReading,
                                  now: DateTime, codec: Codec, f: string)
    requires id in store && f in store[id]
    requires f != OriginalFileName(file.fileName) && f != MetadataFileName
    requires forall k :: k in ImageSizes ==> f != VariantFileName(k)
    ensures var dir := UploadedStore(store, id, file, reading, now, codec)[id];
      f in dir && dir[f] == store[id][f]
  {
    VariantFilesAreWebp(SizeKeys[..DecodedCount(file.content, codec)], file.content, codec);
  }

  /** The record written carries the id, the byte count and the declared content
      type; name, upload time and EXIF fields come from the extractor; the paths
      point into the image's directory. */
  lemma StoredRecordFields(id: string, file: FormFile, reading: MetadataReading, now: DateTime)
    ensures var m := StoredRecord(id, file, reading, now);
      var extracted := ExtractedMetadata(reading, file.fileName, now);
      m.id == id && m.fileSize == |file.content| && m.contentType == file.contentType &&
      m.originalFileName == file.fileName && m.uploadDate == now &&
      m.dateTaken == extracted.dateTaken && m.cameraMake == extracted.cameraMake &&
      m.cameraModel == extracted.cameraModel &&
      m.latitude == extracted.latitude && m.longitude == extracted.longitude &&
      m.originalPath == GetRelativePath(id, OriginalFileName(file.fileName)) &&
      m.phonePath == GetRelativePath(id, "phone.webp") &&
      m.tabletPath == GetRelativePath(id, "tablet.webp") &&
      m.desktopPath == GetRelativePath(id, "desktop.webp")
  {
    AllVariantPaths(StampedRecord(id, file, reading, now), id);
  }

  /** Upload then GetImageMetadata gives back the record that was written. */
  lemma UploadThenGetMetadata(store: Store, id: string, file: FormFile, reading: MetadataReading,
                              now: DateTime, codec: Codec)
    requires DecodesEveryBox(file.content, codec)
    ensures MetadataOf(UploadedStore(store, id, file, reading, now, codec), id) ==
      Ok(StoredRecord(id, file, reading, now))
  {
    DecodedCountFull(file.content, codec);
  }

  /** Upload then GetResizedImage gives each variant the codec produced, as WebP. */
  lemma UploadThenGetVariant(store: Store, id: string, file: FormFile, reading: MetadataReading,
                             now: DateTime, codec: Codec, size: ImageSize)
    requires DecodesEveryBox(file.content, codec)
    ensures var after := UploadedStore(store, id, file, reading, now, codec);
      (size == Phone ==>
        ResizedImageOf(after, id, size) ==
          Ok(FileStreamResult(Blob(codec(file.content, ImageSizes["phone"]).value), WebpContentType))) &&
      (size == Tablet ==>
        ResizedImageOf(after, id, size) ==
          Ok(FileStreamResult(Blob(codec(file.content, ImageSizes["tablet"]).value), WebpContentType))) &&
      (size == Desktop ==>
        ResizedImageOf(after, id, size) ==
          Ok(FileStreamResult(Blob(codec(file.content, ImageSizes["desktop"]).value), WebpContentType)))
  {
    UploadedVariants(store, id, file, reading, now, codec);
    if size == Phone || size == Tablet || size == Desktop {
      ConfiguredSizeLookup(UploadedStore(store, id, file, reading, now, codec), id, size);
    }
  }

  /** The manifest of a complete upload: the id, the uploaded name, one URL per
      table key and the metadata URL; a codec failure answers DecodeError. */
  lemma UploadResponseShape(id: string, file: FormFile, codec: Codec)
    ensures DecodedCount(file.content, codec) < |SizeKeys| ==> UploadResult(id, file, codec) == Err(DecodeError)
    ensures DecodedCount(file.content, codec) == |SizeKeys| ==>
      var r := UploadResult(id, file, codec);
      r.Ok? && r.value.id == id && r.value.originalFileName == file.fileName &&
      r.value.resizedImageUrls.Keys == ImageSizes.Keys &&
      (forall k :: k in ImageSizes ==> r.value.resizedImageUrls[k] == "/api/images/" + id + "/" + k) &&
      r.value.metadataUrl == "/api/images/" + id + "/metadata"
  {
  }

  /** An upload the codec aborts leaves a directory without a record: reading
      its metadata reports FileNotFound. */
  lemma {:induction false} FailedUploadHasNoRecord(store: Store, id: string, file: FormFile, reading: MetadataReading,
                                                   now: DateTime, codec: Codec)
    requires DecodedCount(file.content, codec) < |SizeKeys|
    requires MetadataFileName !in ExistingOrEmpty(store, id)
    ensures MetadataOf(UploadedStore(store, id, file, reading, now, codec), id) == Err(FileNotFound)
  {
    VariantFilesAreWebp(SizeKeys[..DecodedCount(file.content, codec)], file.content, codec);
    UploadNamesDistinct(file.fileName);
  }

  // ---------------------------------------------------------------------
  // Delete

  /** After a delete the id is gone: a second delete answers false, both reads
      report FileNotFound (or reject the size), and other ids are untouched. */
  lemma DeleteThenGets(store: Store, id: string, size: ImageSize, other: string)
    ensures id !in store - {id}
    ensures (store - {id}) - {id} == store - {id}
    ensures MetadataOf(store - {id}, id) == Err(FileNotFound)
    ensures ResizedImageOf(store - {id}, id, size).Err?
    ensures size == Phone || size == Tablet || size == Desktop ==> ResizedImageOf(store - {id}, id, size) == Err(FileNotFound)
    ensures other != id ==> (other in store - {id} <==> other in store)
    ensures other != id && other in store ==> (store - {id})[other] == store[other]
  {
    if size == Phone || size == Tablet || size == Desktop {
      ConfiguredSizeLookup(store - {id}, id, size);
    }
  }

  // ---------------------------------------------------------------------
  // The operations in sequence, through the service object

  /** Upload, read the record, delete twice, read again. */
  method UploadReadDeleteScenario(service: ImageService, file: FormFile, g: Guid,
                                  reading: MetadataReading, now: DateTime)
    returns (uploaded: Result<UploadImageResponse>, first: bool, second: bool, after: Result<ImageMetadata>)
    requires IsValidImageFile(file.fileName, file.Length())
    requires DecodesEveryBox(file.content, service.codec)
    modifies service
    ensures uploaded.Ok? && uploaded.value.id == FormatN(g)
    ensures first && !second
    ensures after == Err(FileNotFound)
  {
    DecodedCountFull(file.content, service.codec);
    uploaded := service.UploadImage(file, g, reading, now);
    UploadResponseShape(FormatN(g), file, service.codec);
    var record := service.GetImageMetadata(uploaded.value.id);
    UploadThenGetMetadata(old(service.storage), FormatN(g), file, reading, now, service.codec);
    StoredRecordFields(FormatN(g), file, reading, now);
    assert record.Ok? && record.value.id == FormatN(g) && record.value.fileSize == file.Length();
    first := service.DeleteImage(uploaded.value.id);
    second := service.DeleteImage(uploaded.value.id);
    after := service.GetImageMetadata(uploaded.value.id);
  }
}

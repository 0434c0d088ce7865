# ImageProcessor image store, modelled in Dafny

ImageProcessor is an ASP.NET service that stores uploaded images. An upload
is admitted only if it is at most 10 MiB and its extension is on an
allow-list. The service then gives it a fresh GUID id and creates a directory
`storage/<id>/` under the content root. Into that directory it writes:

- the original file, as `original<ext>`;
- one WebP variant per entry of the size table, as `phone.webp`,
  `tablet.webp` and `desktop.webp`;
- a record `metadata.json`, holding what the EXIF reader found together with
  the paths of all the files.

Variants and metadata are read back by id. A delete removes the whole
directory.

This project models three parts of the service:

- the admissibility rule and the size table (`ImageProcessingHelper`);
- the store (`ImageService`), modelled as a class whose state is a map
  `id -> directory`, where a directory maps each file name to its contents;
- the EXIF field mapping (`ExifService.ExtractMetadata`).

It then proves what these parts promise about each other.

Modules, one per file:

| file | module | contents |
|---|---|---|
| `models.dfy` | `Models` | `ImageMetadata`, `UploadImageResponse`, `ImageSize` (an int32 newtype, because an undefined enum value can reach the service), `FormFile`, `Option` |
| `dotnet.dfy` | `DotNet` | the library behaviour the code relies on: `Path.GetExtension` with the Unix separator, `ToLowerInvariant` on ASCII, `Int32.ToString` |
| `guids.dfy` | `Guids` | `Guid.ToString("N")` as 32 lower-case hex digits, with its inverse |
| `helpers.dfy` | `Helpers` | the allow-list, the 10 MiB ceiling, the size table, `IsValidImageFile`; the resizer as an uninterpreted function `Codec` |
| `exif.dfy` | `Exif` | the directory list the EXIF reader returns, the imperative `ExtractMetadata`, and its reference function `ExtractedMetadata` |
| `service.dfy` | `Service` | the `ImageService` class and the reference functions its methods are proved against |
| `service_properties.dfy` | `ServiceProperties` | what happens when the operations are combined: upload then get, delete then get, file sets, paths, URLs |

Some inputs come from outside the code and are passed in as parameters:

- the GUID that `Guid.NewGuid` would draw;
- the outcome of the EXIF reader (`MetadataReading`);
- the clock value `DateTime.UtcNow` (`now`);
- the resizer (`codec`).

The resizer is an uninterpreted function from bytes and a bounding box to
`Option<bytes>`. `None` stands for an image that cannot be decoded. The
source lets that exception escape from the upload, and the model answers
`Err(DecodeError)`. The files written before the failure stay on disk,
because the code has no rollback.

## Behaviour of the code worth noting

- Ids given to get and delete are not checked for separators or `..`.
  ImageService.cs:99, 111 and 124 combine them into paths as they are.
- Creating the directory of an id that already exists is not an error.
  `Directory.CreateDirectory` at ImageService.cs:31 keeps it, and the upload
  writes into it.
- The variants are produced one after another, in the table's insertion
  order (phone, tablet, desktop). This order matters only for which files a
  failed upload leaves behind.

## Model

| member | source | states |
|---|---|---|
| Helpers.SizeTable | ImageProcessor/Helpers/ImageProcessingHelper.cs:12-17 | the size table has exactly the keys phone, tablet and desktop, with the boxes 640×480, 1024×768 and 1920×1080 |
| Helpers.SizeKeysEnumerateTable | ImageProcessor/Helpers/ImageProcessingHelper.cs:12-17 | the enumeration order visits every table key exactly once |
| Helpers.OversizedRejected | ImageProcessor/Helpers/ImageProcessingHelper.cs:19-24 | a file larger than 10·1024·1024 bytes is rejected, whatever its name |
| Helpers.AcceptedIffAllowedExtension | ImageProcessor/Helpers/ImageProcessingHelper.cs:19-28 | at or below the ceiling, a file is accepted if and only if its lower-cased extension is on the allow-list |
| Helpers.AllowedSuffixAccepted | ImageProcessor/Helpers/ImageProcessingHelper.cs:26-27 | any name that ends in an allowed extension, in any letter case, is accepted at or below the ceiling |
| Helpers.SizeBoundary | ImageProcessor/Helpers/ImageProcessingHelper.cs:21-24 | "photo.jpg" is accepted at exactly 10 MiB and rejected at one byte more, because the test is a strict `>` |
| Helpers.ExtensionCaseIgnored | ImageProcessor/Helpers/ImageProcessingHelper.cs:26 | lower-casing the whole name never changes the verdict |
| Helpers.UpperAndLowerNamesAgree | ImageProcessor/Helpers/ImageProcessingHelper.cs:26 | "A.JPG" and "a.jpg" get the same verdict |
| Helpers.NoExtensionRejected | ImageProcessor/Helpers/ImageProcessingHelper.cs:26-27 | a name without a dot is rejected at every size |
| Helpers.TextFileRejected | ImageProcessor/Helpers/ImageProcessingHelper.cs:26-27 | any name ending in ".txt" is rejected at every size |
| DotNet.GetExtension | ImageProcessor/Helpers/ImageProcessingHelper.cs:26 | a non-empty extension is a suffix of the name, starts with '.', and has no further dot or separator; an empty one means the name is empty, ends in '.', or has no dot in its final segment |
| DotNet.ExtensionBefore | ImageProcessor/Helpers/ImageProcessingHelper.cs:26 | the backwards scan of Path.GetExtension keeps the same two guarantees at every position |
| DotNet.ExtensionEmptyIff | ImageProcessor/Helpers/ImageProcessingHelper.cs:26 | the extension is empty exactly when the name is empty, ends in '.', or has no dot in its final segment |
| DotNet.ExtensionOfSuffix | ImageProcessor/Helpers/ImageProcessingHelper.cs:26 | appending ".x" (with x free of dots and separators) to any name makes ".x" its extension |
| DotNet.NoDotNoExtension | ImageProcessor/Helpers/ImageProcessingHelper.cs:26 | a name without any dot has the empty extension |
| DotNet.ToLowerInvariantIdempotent | ImageProcessor/Helpers/ImageProcessingHelper.cs:26 | lower-casing twice is the same as lower-casing once |
| DotNet.ExtensionOfLowered | ImageProcessor/Helpers/ImageProcessingHelper.cs:26 | the extension of the lower-cased name is the lower-cased extension |
| DotNet.IntToString | ImageProcessor/Services/ImageService.cs:93 | the decimal rendering of an undefined ImageSize starts with '-' or a digit and continues with digits only |
| Guids.FormatN | ImageProcessor/Services/ImageService.cs:29 | the id is 32 characters, each a lower-case hex digit |
| Guids.FormatNRoundTrip | ImageProcessor/Services/ImageService.cs:29 | reading the 32 digits back as a number gives the GUID |
| Guids.FormatNInjective | ImageProcessor/Services/ImageService.cs:29 | distinct GUIDs give distinct ids |
| Exif.FirstIndexOf | ImageProcessor/Services/ExifService.cs:21-23 | the position found has the asked kind, and no earlier directory has that kind |
| Exif.FirstOfType | ImageProcessor/Services/ExifService.cs:21-23 | `OfType<K>().FirstOrDefault()` returns the directory at the first position of kind K, and None exactly when that position is past the end |
| Exif.FirstOfTypeNone | ImageProcessor/Services/ExifService.cs:21-23 | `FirstOrDefault()` gives None exactly when no directory has kind K |
| Exif.ExtractMetadata | ImageProcessor/Services/ExifService.cs:9-53 | the imperative extractor, with its early exits at the two points where an exception can be thrown, returns exactly the field-by-field reference record |
| Exif.AlwaysNamesTheFile | ImageProcessor/Services/ExifService.cs:11-52 | the extractor never fails: the name and upload time are always set, and the non-EXIF fields keep their defaults |
| Exif.ReadFailureLeavesExifEmpty | ImageProcessor/Services/ExifService.cs:17-50 | when the reader throws, every optional field stays absent |
| Exif.CameraFromFirstIfd0 | ImageProcessor/Services/ExifService.cs:21-29 | make and model are those of the first IFD0 directory |
| Exif.NoIfd0NoCamera | ImageProcessor/Services/ExifService.cs:25-29 | without an IFD0 directory, make and model stay absent |
| Exif.DateTakenCondition | ImageProcessor/Services/ExifService.cs:23-35 | DateTaken is set if and only if the first SubIFD holds a DateTimeOriginal that can be converted |
| Exif.CoordinatesTogether | ImageProcessor/Services/ExifService.cs:22-45 | latitude and longitude are set together, and exactly when a GPS directory with a non-null location is reached without an earlier exception |
| Exif.DateFailureKeepsCamera | ImageProcessor/Services/ExifService.cs:25-50 | a date that cannot be converted keeps the camera make and model that were already set and leaves date and coordinates absent |
| Exif.FirstIndexOfAppend | ImageProcessor/Services/ExifService.cs:21-23 | appending directories does not move the first one of a kind that is already present |
| Exif.LaterDirectoriesIgnored | ImageProcessor/Services/ExifService.cs:21-23 | once IFD0, SubIFD and GPS directories are present, further directories change nothing |
| Exif.CameraAndGpsScenario | ImageProcessor/Services/ExifService.cs:21-45 | an IFD0 ("Acme", "X1") followed by a GPS fix gives that make and model and both coordinates |
| Service.DecodedCount | ImageProcessor/Services/ImageService.cs:57-64 | the number of table entries, in order, that the codec produces before its first failure; every entry before that point decodes, and the entry at that point does not |
| Service.DecodedFrom | ImageProcessor/Services/ImageService.cs:57-64 | the same count, taken from position i onwards |
| Service.VariantFilesStep | ImageProcessor/Services/ImageService.cs:59-64 | producing one more table entry adds just its `<key>.webp` file |
| Service.WithVariantPathsStep | ImageProcessor/Services/ImageService.cs:66-77 | one more loop step sets the path field that its key selects |
| Service.UrlsStep | ImageProcessor/Services/ImageService.cs:79 | one more loop step adds its key's URL to the response map |
| Service.ImageService.constructor | ImageProcessor/Services/ImageService.cs:14-20 | the storage root starts with what already exists |
| Service.ImageService.CreateDirectory | ImageProcessor/Services/ImageService.cs:31 | an existing directory is kept; a missing one is created empty |
| Service.ImageService.WriteFile | ImageProcessor/Services/ImageService.cs:42-45 | writing one file replaces only that file of that directory |
| Service.ImageService.UploadImage | ImageProcessor/Services/ImageService.cs:22-89 | an inadmissible file is rejected with "Invalid file format or size" and the store is unchanged; otherwise the result and the new store are the upload's reference definitions |
| Service.ImageService.SaveResizedVersions | ImageProcessor/Services/ImageService.cs:57-81 | the loop writes variants up to the first codec failure; after a full pass the three path fields and the URL map are filled |
| Service.ImageService.SaveResizedVersion | ImageProcessor/Services/ImageService.cs:59-79 | one pass of the loop adds the key's variant file, sets the path field its key selects and adds its URL, extending each loop invariant by one key |
| Service.ImageService.GetResizedImage | ImageProcessor/Services/ImageService.cs:91-107 | answers exactly the reference lookup: size name first, then the file, then the file as WebP |
| Service.ImageService.GetImageMetadata | ImageProcessor/Services/ImageService.cs:109-120 | answers exactly the stored record, FileNotFound, or a failed deserialisation |
| Service.ImageService.DeleteImage | ImageProcessor/Services/ImageService.cs:122-132 | returns true exactly when the id had a directory; the new store is the old one without that id |
| ServiceProperties.GeneratedIdIsOneSegment | ImageProcessor/Services/ImageService.cs:29-30 | a generated id is 32 lower-case hex digits, with no dot and no separator |
| ServiceProperties.RelativePathLayout | ImageProcessor/Services/ImageService.cs:134-137 | a relative path is "storage/", then the id, then "/", then the file name |
| ServiceProperties.RelativePathInjective | ImageProcessor/Services/ImageService.cs:134-137 | for ids without a separator, the relative path determines both the id and the file name |
| ServiceProperties.UploadNamesDistinct | ImageProcessor/Services/ImageService.cs:41-84 | the original, the three variants and metadata.json have pairwise distinct names, so no write overwrites another |
| ServiceProperties.ConfiguredSizeNames | ImageProcessor/Services/ImageService.cs:93-94 | Phone, Tablet and Desktop lower-case to the table's keys, in enumeration order |
| ServiceProperties.UndefinedSizeHasNoKey | ImageProcessor/Services/ImageService.cs:93-94 | any other ImageSize value prints as a number, which is never a table key |
| ServiceProperties.InvalidSizeRejected | ImageProcessor/Services/ImageService.cs:93-97 | an undefined size is rejected with "Invalid size parameter" before the store is consulted, whatever it holds |
| ServiceProperties.ConfiguredSizeLookup | ImageProcessor/Services/ImageService.cs:99-106 | for Phone, Tablet and Desktop, the file looked up is phone.webp, tablet.webp or desktop.webp; it is FileNotFound when the file is missing, otherwise the file as image/webp |
| ServiceProperties.DecodedCountFull | ImageProcessor/Services/ImageService.cs:57-64 | the loop runs to the end if and only if the codec produces every box of the table |
| ServiceProperties.AllVariantFiles | ImageProcessor/Services/ImageService.cs:57-64 | a full pass writes exactly phone.webp, tablet.webp and desktop.webp, each holding the codec's output for its box |
| ServiceProperties.AllVariantPaths | ImageProcessor/Services/ImageService.cs:66-77 | a full pass sets PhonePath, TabletPath and DesktopPath to the paths of their own files |
| ServiceProperties.VariantFilesAreWebp | ImageProcessor/Services/ImageService.cs:59 | every file the loop writes is `<key>.webp` for some table key |
| ServiceProperties.UploadedFileSet | ImageProcessor/Services/ImageService.cs:29-85 | a complete upload under an unused id creates a directory with exactly five files: the original, the three variants and metadata.json |
| ServiceProperties.UploadLeavesOtherIds | ImageProcessor/Services/ImageService.cs:30-31 | an upload changes no other id's directory and adds no other id |
| ServiceProperties.UploadKeepsUnrelatedFiles | ImageProcessor/Services/ImageService.cs:31 | an upload into a directory that already exists keeps the files there that it does not write |
| ServiceProperties.StoredRecordFields | ImageProcessor/Services/ImageService.cs:35-77 | the record carries the id, the byte count and the content type; its EXIF fields are the extractor's; its four paths point to the image's own files |
| ServiceProperties.UploadThenGetMetadata | ImageProcessor/Services/ImageService.cs:84-119 | after a complete upload, reading the metadata returns the record that was written |
| ServiceProperties.UploadedFiles | ImageProcessor/Services/ImageService.cs:29-85 | a complete upload adds original<ext>, phone.webp, tablet.webp, desktop.webp and metadata.json to what the directory held, and states the contents of each: the uploaded bytes, the codec's output for each box, and the stored record |
| ServiceProperties.UploadedVariants | ImageProcessor/Services/ImageService.cs:57-64 | after a complete upload the three variant files exist, each holding the codec's output for its own box |
| ServiceProperties.CompleteUploadDirectory | ImageProcessor/Services/ImageService.cs:31-85 | a complete upload's directory is, in write order, the existing directory, then the original, then the three variants, then the record |
| ServiceProperties.UploadThenGetVariant | ImageProcessor/Services/ImageService.cs:59-106 | after a complete upload, Phone, Tablet and Desktop each read back the codec's output for their own box, as image/webp |
| ServiceProperties.UploadResponseShape | ImageProcessor/Services/ImageService.cs:50-86 | the response holds the id and the uploaded name, URL keys equal to the table keys, each URL `/api/images/{id}/{key}`, and `/api/images/{id}/metadata`; a decode failure gives DecodeError |
| ServiceProperties.FailedUploadHasNoRecord | ImageProcessor/Services/ImageService.cs:57-85 | an upload the codec aborts leaves no metadata.json behind, so reading the metadata reports FileNotFound |
| ServiceProperties.DeleteThenGets | ImageProcessor/Services/ImageService.cs:122-132 | after a delete the id is gone: a second delete finds nothing, both reads fail with FileNotFound, and other ids are untouched |
| ServiceProperties.UploadReadDeleteScenario | ImageProcessor/Services/ImageService.cs:22-132 | through the service object: upload succeeds under the generated id, the first delete returns true and the second false, and the metadata is then not found |

The admissibility check is a function of `(fileName, fileSize)` only. Being
a Dafny function, it has no side effects.

## Left out

- ConvertToWebpAndResizeAsync (ImageProcessingHelper.cs:30-45) is an uninterpreted `Codec`. The model claims nothing about its output size, its aspect ratio or upscaling.
- The MetadataExtractor parser and GetGeoLocation are foreign code. Their results (the directory list, and a geolocation or null) are inputs. Coordinates are opaque 64-bit values.
- `GetDescription` throwing inside the IFD0 branch is not modelled; the only modelled failure points are `ReadMetadata` and `GetDateTime`.
- `DateTime.UtcNow` and `Guid.NewGuid` are parameters. The GUID's version and variant bits are not modelled. The upload's GUID can be any 128-bit value.
- JSON serialisation: `metadata.json` holds the record value itself. A file of that name that does not hold a record stands for a failed `Deserialize`.
- The filesystem: I/O errors, streams and their `Position` resets, and `async`/`Task` are not modelled.
- Path semantics of unsafe ids: an id is an opaque map key. An id such as "", ".." or "a/b" does not address another directory here, as it would on disk.
- Windows path separators: `Path.GetExtension` is modelled with the Unix separator `/` only.
- `ToLowerInvariant` folds only the ASCII letters A–Z. It does not fold the rest of Unicode.
- GetRelativePath: modelled as building `storage/<id>/<file>` directly. It does not compute `Path.GetRelativePath` between two absolute paths.
- The HTTP layer is not modelled: the controller, the middlewares, the health check, the startup code and the interfaces.

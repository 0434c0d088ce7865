/** ImageProcessingHelper: which uploads are admissible, and the fixed table of
    variant names and bounding boxes. */
module Helpers {
  import opened Models
  import opened DotNet

  /** The extensions an original may have, lower-case, with their dot. */
  const AllowedExtensions: seq<string> := [".jpg", ".jpeg", ".png", ".gif", ".bmp", ".webp"]

  /** 10 MiB. */
  const MaxFileSize: int := 10 * 1024 * 1024

  /** A width and height in pixels (SixLabors.ImageSharp.Size). */
  datatype Size = Size(width: int, height: int)

  /** The variant table: name to bounding box. */
  const ImageSizes: map<string, Size> :=
    map["phone" := Size(640, 480), "tablet" := Size(1024, 768), "desktop" := Size(1920, 1080)]

  /** The order in which the table's entries are enumerated (insertion order). */
  const SizeKeys: seq<string> := ["phone", "tablet", "desktop"]

  /** ConvertToWebpAndResizeAsync, left uninterpreted: decode the bytes, fit them
      into the box and encode as WebP; None when the bytes do not decode. */
  type Codec = (Bytes, Size) -> Option<Bytes>

  /** The admissibility check: at most MaxFileSize bytes, and an extension that,
      lower-cased, is on the allow-list. */
  predicate IsValidImageFile(fileName: string, fileSize: int) {
    if fileSize > MaxFileSize then false
    else ToLowerInvariant(GetExtension(fileName)) in AllowedExtensions
  }

  lemma SizeTable()
    ensures ImageSizes.Keys == {"phone", "tablet", "desktop"}
    ensures ImageSizes["phone"] == Size(640, 480)
    ensures ImageSizes["tablet"] == Size(1024, 768)
    ensures ImageSizes["desktop"] == Size(1920, 1080)
  {
  }

  /** The enumeration order visits every key of the table exactly once. */
  lemma SizeKeysEnumerateTable()
    ensures forall k :: k in SizeKeys <==> k in ImageSizes
    ensures forall i, j :: 0 <= i < j < |SizeKeys| ==> SizeKeys[i] != SizeKeys[j]
  {
  }

  /** More than 10 MiB is rejected whatever the name. */
  lemma OversizedRejected(fileName: string, fileSize: int)
    requires fileSize > MaxFileSize
    ensures !IsValidImageFile(fileName, fileSize)
  {
  }

  /** Up to the ceiling the verdict is exactly the allow-list test. */
  lemma AcceptedIffAllowedExtension(fileName: string, fileSize: int)
    requires fileSize <= MaxFileSize
    ensures IsValidImageFile(fileName, fileSize) <==>
      ToLowerInvariant(GetExtension(fileName)) in AllowedExtensions
  {
  }

  /** Any name ending in an allowed extension, in any letter case, is accepted
      at or under the ceiling. */
  lemma {:induction false} AllowedSuffixAccepted(stem: string, ext: string, fileSize: int)
    requires ToLowerInvariant(ext) in AllowedExtensions
    requires fileSize <= MaxFileSize
    ensures IsValidImageFile(stem + ext, fileSize)
  {
    var lower := ToLowerInvariant(ext);
    assert |lower| >= 4 && lower[0] == '.' && IsPlain(lower[1..]);
    assert |ext| == |lower| && ext[0] == '.';
    assert IsPlain(ext[1..]) by {
      forall i | 0 <= i < |ext| - 1
        ensures ext[1..][i] != '.' && !IsDirectorySeparator(ext[1..][i])
      {
        assert lower[1..][i] == LowerChar(ext[i + 1]);
      }
    }
    ExtensionOfSuffix(stem, ext);
  }

  /** Exactly at the ceiling is still accepted; one byte more is not. */
  lemma SizeBoundary()
    ensures IsValidImageFile("photo.jpg", MaxFileSize)
    ensures !IsValidImageFile("photo.jpg", MaxFileSize + 1)
  {
    assert ToLowerInvariant(".jpg") == ".jpg";
    AllowedSuffixAccepted("photo", ".jpg", MaxFileSize);
    assert "photo" + ".jpg" == "photo.jpg";
  }

  /** The verdict ignores the letter case of the name. */
  lemma {:induction false} ExtensionCaseIgnored(fileName: string, fileSize: int)
    ensures IsValidImageFile(ToLowerInvariant(fileName), fileSize) == IsValidImageFile(fileName, fileSize)
  {
    ExtensionOfLowered(fileName);
    ToLowerInvariantIdempotent(GetExtension(fileName));
  }

  lemma UpperAndLowerNamesAgree(fileSize: int)
    ensures IsValidImageFile("A.JPG", fileSize) == IsValidImageFile("a.jpg", fileSize)
  {
    ExtensionCaseIgnored("A.JPG", fileSize);
    assert ToLowerInvariant("A.JPG") == "a.jpg";
  }

  /** A name without a dot is rejected. */
  lemma {:induction false} NoExtensionRejected(fileName: string, fileSize: int)
    requires forall i :: 0 <= i < |fileName| ==> fileName[i] != '.'
    ensures !IsValidImageFile(fileName, fileSize)
  {
    NoDotNoExtension(fileName);
    assert ToLowerInvariant("") == "";
  }

  /** A name ending in ".txt" is rejected. */
  lemma {:induction false} TextFileRejected(stem: string, fileSize: int)
    ensures !IsValidImageFile(stem + ".txt", fileSize)
  {
    ExtensionOfSuffix(stem, ".txt");
    assert ToLowerInvariant(".txt") == ".txt";
  }
}

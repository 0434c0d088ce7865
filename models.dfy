/** The record types of the image service: what is stored per image, what an
    upload answers, and the values the .NET runtime hands to the service. */
module Models {

  datatype Option<+T> = None | Some(value: T)

  /** A byte of an uploaded file or of an encoded variant. */
  newtype byte = b: int | 0 <= b < 256

  type Bytes = seq<byte>

  /** A System.DateTime, kept as its tick count; the service only copies it. */
  datatype DateTime = DateTime(ticks: int)

  /** A System.Double, kept as its IEEE-754 bit pattern; the service only copies it. */
  datatype Double = Double(bits: bv64)

  /** A GPS position as the EXIF reader decodes it. */
  datatype GeoLocation = GeoLocation(latitude: Double, longitude: Double)

  /** The record written to metadata.json. Strings default to "", the EXIF
      fields are optional and stay None unless the extractor sets them. */
  datatype ImageMetadata = ImageMetadata(
    id: string,
    originalFileName: string,
    fileSize: int,
    contentType: string,
    uploadDate: DateTime,
    dateTaken: Option<DateTime>,
    cameraMake: Option<string>,
    cameraModel: Option<string>,
    latitude: Option<Double>,
    longitude: Option<Double>,
    originalPath: string,
    phonePath: string,
    tabletPath: string,
    desktopPath: string)

  /** `new ImageMetadata()`: every property at its initial value. */
  function EmptyMetadata(): ImageMetadata {
    ImageMetadata("", "", 0, "", DateTime(0), None, None, None, None, None, "", "", "", "")
  }

  /** The manifest an upload returns. */
  datatype UploadImageResponse = UploadImageResponse(
    id: string,
    originalFileName: string,
    resizedImageUrls: map<string, string>,
    metadataUrl: string)

  /** The ImageSize enumeration. Its underlying type is a 32-bit int, so a
      value outside Phone, Tablet and Desktop can be passed in. */
  newtype ImageSize = x: int | -0x8000_0000 <= x < 0x8000_0000

  const Phone: ImageSize := 0
  const Tablet: ImageSize := 1
  const Desktop: ImageSize := 2

  /** An uploaded form file: its declared name and content type and its bytes. */
  datatype FormFile = FormFile(fileName: string, contentType: string, content: Bytes) {
    /** IFormFile.Length: the number of bytes uploaded. */
    function Length(): nat {
      |content|
    }
  }
}

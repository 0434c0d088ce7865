/** ExifService: turns the tag directories the EXIF reader found into the
    optional fields of an ImageMetadata record. The reader itself is foreign:
    its outcome is an input, either a failure or the list of directories, each
    carrying what its accessors return. */
module Exif {
  import opened Models

  /** What the DateTimeOriginal tag of a SubIFD directory yields: absent
      (ContainsTag is false), a date, or a value GetDateTime cannot convert,
      in which case GetDateTime throws. */
  datatype DateTag = NoDateTag | DateValue(value: DateTime) | UnconvertibleDate

  /** A tag directory. IFD0 carries the descriptions of its Make and Model
      tags (None when absent); GPS carries what GetGeoLocation returns. */
  datatype ExifDirectory =
    | Ifd0Directory(make: Option<string>, model: Option<string>)
    | SubIfdDirectory(dateTimeOriginal: DateTag)
    | GpsDirectory(geoLocation: Option<GeoLocation>)
    | OtherDirectory

  /** ImageMetadataReader.ReadMetadata: it throws, or it returns the directories. */
  datatype MetadataReading = ReadFailed | Read(directories: seq<ExifDirectory>)

  datatype DirectoryKind = Ifd0 | SubIfd | Gps | Other

  function KindOf(d: ExifDirectory): DirectoryKind {
    match d
    case Ifd0Directory(_, _) => Ifd0
    case SubIfdDirectory(_) => SubIfd
    case GpsDirectory(_) => Gps
    case OtherDirectory => Other
  }

  /** The position of the first directory of the given kind, |dirs| if none. */
  function FirstIndexOf(dirs: seq<ExifDirectory>, kind: DirectoryKind): (i: nat)
    ensures i <= |dirs|
    ensures forall j :: 0 <= j < i ==> KindOf(dirs[j]) != kind
    ensures i < |dirs| ==> KindOf(dirs[i]) == kind
  {
    if dirs == [] then 0
    else if KindOf(dirs[0]) == kind then 0
    else 1 + FirstIndexOf(dirs[1..], kind)
  }

  /** directories.OfType<K>().FirstOrDefault(): the first directory of kind K,
      or None when there is none. */
  function FirstOfType(dirs: seq<ExifDirectory>, kind: DirectoryKind): (d: Option<ExifDirectory>)
    ensures d.Some? ==> KindOf(d.value) == kind
    ensures d.Some? ==> FirstIndexOf(dirs, kind) < |dirs| && d.value == dirs[FirstIndexOf(dirs, kind)]
    ensures d.None? <==> FirstIndexOf(dirs, kind) == |dirs|
  {
    var i := FirstIndexOf(dirs, kind);
    if i < |dirs| then Some(dirs[i]) else None
  }

  /** FirstOrDefault gives null exactly when no directory has kind K. */
  lemma FirstOfTypeNone(dirs: seq<ExifDirectory>, kind: DirectoryKind)
    ensures FirstOfType(dirs, kind).None? <==> forall j :: 0 <= j < |dirs| ==> KindOf(dirs[j]) != kind
  {
  }

  /** Reading the date throws: the GPS fields are then never reached. */
  predicate DateReadThrows(dirs: seq<ExifDirectory>) {
    var sub := FirstOfType(dirs, SubIfd);
    sub.Some? && sub.value.dateTimeOriginal.UnconvertibleDate?
  }

  /** What the extractor promises, field by field. */
  function ExtractedMetadata(reading: MetadataReading, fileName: string, now: DateTime): ImageMetadata {
    var dirs := if reading.Read? then reading.directories else [];
    var ifd0 := FirstOfType(dirs, Ifd0);
    var sub := FirstOfType(dirs, SubIfd);
    var gps := FirstOfType(dirs, Gps);
    var geo := if gps.Some? && !DateReadThrows(dirs) then gps.value.geoLocation else None;
    EmptyMetadata().(
      originalFileName := fileName,
      uploadDate := now,
      cameraMake := if ifd0.Some? then ifd0.value.make else None,
      cameraModel := if ifd0.Some? then ifd0.value.model else None,
      dateTaken := if sub.Some? && sub.value.dateTimeOriginal.DateValue? then Some(sub.value.dateTimeOriginal.value) else None,
      latitude := if geo.Some? then Some(geo.value.latitude) else None,
      longitude := if geo.Some? then Some(geo.value.longitude) else None)
  }

  /** ExtractMetadata: fills the record step by step; an exception inside the
      try block ends the filling, and what was assigned before it stays. */
  method ExtractMetadata(reading: MetadataReading, fileName: string, now: DateTime)
    returns (metadata: ImageMetadata)
    ensures metadata == ExtractedMetadata(reading, fileName, now)
  {
    metadata := EmptyMetadata().(originalFileName := fileName, uploadDate := now);
    if reading.ReadFailed? {
      return;
    }
    var directories := reading.directories;
    var exifIfd0Directory := FirstOfType(directories, Ifd0);
    var gpsDirectory := FirstOfType(directories, Gps);
    var exifSubIfdDirectory := FirstOfType(directories, SubIfd);

    if exifIfd0Directory.Some? {
      metadata := metadata.(cameraMake := exifIfd0Directory.value.make);
      metadata := metadata.(cameraModel := exifIfd0Directory.value.model);
    }

    if exifSubIfdDirectory.Some? && !exifSubIfdDirectory.value.dateTimeOriginal.NoDateTag? {
      match exifSubIfdDirectory.value.dateTimeOriginal {
        case UnconvertibleDate =>
          return;
        case DateValue(dateTaken) =>
          metadata := metadata.(dateTaken := Some(dateTaken));
      }
    }

    if gpsDirectory.Some? {
      var geoLocation := gpsDirectory.value.geoLocation;
      if geoLocation.Some? {
        metadata := metadata.(latitude := Some(geoLocation.value.latitude));
        metadata := metadata.(longitude := Some(geoLocation.value.longitude));
      }
    }
  }

  /** The extractor never fails: the name and the upload time are always set,
      and nothing else of the record's non-EXIF part is touched. */
  lemma AlwaysNamesTheFile(reading: MetadataReading, fileName: string, now: DateTime)
    ensures var m := ExtractedMetadata(reading, fileName, now);
      m.originalFileName == fileName && m.uploadDate == now &&
      m.id == "" && m.fileSize == 0 && m.contentType == "" &&
      m.originalPath == "" && m.phonePath == "" && m.tabletPath == "" && m.desktopPath == ""
  {
  }

  /** When the reader fails every optional field stays absent. */
  lemma ReadFailureLeavesExifEmpty(fileName: string, now: DateTime)
    ensures var m := ExtractedMetadata(ReadFailed, fileName, now);
      m.cameraMake == None && m.cameraModel == None && m.dateTaken == None &&
      m.latitude == None && m.longitude == None
  {
  }

  /** Camera make and model come from the first IFD0 directory. */
  lemma {:induction false} CameraFromFirstIfd0(dirs: seq<ExifDirectory>, i: nat, fileName: string, now: DateTime)
    requires i < |dirs| && dirs[i].Ifd0Directory?
    requires forall j :: 0 <= j < i ==> !dirs[j].Ifd0Directory?
    ensures var m := ExtractedMetadata(Read(dirs), fileName, now);
      m.cameraMake == dirs[i].make && m.cameraModel == dirs[i].model
  {
  }

  /** Without an IFD0 directory both camera fields stay absent. */
  lemma NoIfd0NoCamera(dirs: seq<ExifDirectory>, fileName: string, now: DateTime)
    requires forall j :: 0 <= j < |dirs| ==> !dirs[j].Ifd0Directory?
    ensures var m := ExtractedMetadata(Read(dirs), fileName, now);
      m.cameraMake == None && m.cameraModel == None
  {
  }

  /** DateTaken is set exactly when the first SubIFD holds a convertible
      DateTimeOriginal. */
  lemma DateTakenCondition(reading: MetadataReading, fileName: string, now: DateTime)
    ensures var m := ExtractedMetadata(reading, fileName, now);
      m.dateTaken.Some? <==>
        reading.Read? && FirstOfType(reading.directories, SubIfd).Some? &&
        FirstOfType(reading.directories, SubIfd).value.dateTimeOriginal.DateValue?
  {
  }

  /** Latitude and longitude are set together, and only from a GPS directory
      whose geolocation is not null, reached without an earlier exception. */
  lemma CoordinatesTogether(reading: MetadataReading, fileName: string, now: DateTime)
    ensures var m := ExtractedMetadata(reading, fileName, now);
      (m.latitude.Some? <==> m.longitude.Some?) &&
      (m.latitude.Some? <==>
        reading.Read? && !DateReadThrows(reading.directories) &&
        FirstOfType(reading.directories, Gps).Some? &&
        FirstOfType(reading.directories, Gps).value.geoLocation.Some?)
  {
  }

  /** A date GetDateTime cannot convert aborts the try block after the camera
      fields: they survive, the GPS fields are never set. */
  lemma DateFailureKeepsCamera(dirs: seq<ExifDirectory>, fileName: string, now: DateTime)
    requires DateReadThrows(dirs)
    ensures var m := ExtractedMetadata(Read(dirs), fileName, now);
      var ifd0 := FirstOfType(dirs, Ifd0);
      m.cameraMake == (if ifd0.Some? then ifd0.value.make else None) &&
      m.cameraModel == (if ifd0.Some? then ifd0.value.model else None) &&
      m.dateTaken == None && m.latitude == None && m.longitude == None
  {
  }

  lemma {:induction false} FirstIndexOfAppend(dirs: seq<ExifDirectory>, more: seq<ExifDirectory>, kind: DirectoryKind)
    requires FirstIndexOf(dirs, kind) < |dirs|
    ensures FirstIndexOf(dirs + more, kind) == FirstIndexOf(dirs, kind)
  {
    if KindOf(dirs[0]) != kind {
      assert (dirs + more)[1..] == dirs[1..] + more;
      FirstIndexOfAppend(dirs[1..], more, kind);
    }
  }

  /** Only the first directory of each kind is consulted: once dirs holds an
      IFD0, a SubIFD and a GPS directory, more directories change nothing. */
  lemma {:induction false} LaterDirectoriesIgnored(dirs: seq<ExifDirectory>, more: seq<ExifDirectory>, fileName: string, now: DateTime)
    requires FirstIndexOf(dirs, Ifd0) < |dirs|
    requires FirstIndexOf(dirs, SubIfd) < |dirs|
    requires FirstIndexOf(dirs, Gps) < |dirs|
    ensures ExtractedMetadata(Read(dirs + more), fileName, now) == ExtractedMetadata(Read(dirs), fileName, now)
  {
    FirstIndexOfAppend(dirs, more, Ifd0);
    FirstIndexOfAppend(dirs, more, SubIfd);
    FirstIndexOfAppend(dirs, more, Gps);
    var i0, i1, i2 := FirstIndexOf(dirs, Ifd0), FirstIndexOf(dirs, SubIfd), FirstIndexOf(dirs, Gps);
    assert (dirs + more)[i0] == dirs[i0] && (dirs + more)[i1] == dirs[i1] && (dirs + more)[i2] == dirs[i2];
  }

  /** A camera "Acme X1" with a GPS fix yields CameraModel "X1" and both
      coordinates. */
  lemma CameraAndGpsScenario(geo: GeoLocation, fileName: string, now: DateTime)
    ensures var m := ExtractedMetadata(
        Read([Ifd0Directory(Some("Acme"), Some("X1")), GpsDirectory(Some(geo))]), fileName, now);
      m.cameraMake == Some("Acme") && m.cameraModel == Some("X1") &&
      m.latitude == Some(geo.latitude) && m.longitude == Some(geo.longitude) &&
      m.originalFileName == fileName
  {
    var dirs := [Ifd0Directory(Some("Acme"), Some("X1")), GpsDirectory(Some(geo))];
    assert FirstIndexOf(dirs, Gps) == 1 by {
      assert dirs[1..] == [GpsDirectory(Some(geo))];
    }
  }
}

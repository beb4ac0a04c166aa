/** The photo metadata record and how it is built from embedded EXIF data:
    the GPS block becomes signed decimal coordinates, and a stream of tagged
    EXIF entries is folded into the camera fields. */
module Metadata {
  import opened Wrappers

  /** An unsigned 32-bit integer, one half of an EXIF rational. */
  newtype U32 = x: int | 0 <= x < 0x1_0000_0000

  /** An unsigned 8-bit integer (the GPS altitude reference byte). */
  newtype U8 = x: int | 0 <= x < 0x100

  /** An EXIF unsigned rational, numerator over denominator. */
  datatype URational = URational(num: U32, den: U32)

  predicate NonZero(r: URational) {
    r.den != 0
  }

  /** The value of a rational, computed exactly rather than in f64. */
  function Quotient(r: URational): (q: real)
    requires NonZero(r)
    ensures q >= 0.0
    ensures q * (r.den as real) == r.num as real
  {
    r.num as real / r.den as real
  }

  /** A latitude or longitude as degrees, minutes and seconds. */
  datatype LatLng = LatLng(degrees: URational, minutes: URational, seconds: URational)

  predicate ValidLatLng(ll: LatLng) {
    NonZero(ll.degrees) && NonZero(ll.minutes) && NonZero(ll.seconds)
  }

  /** The unsigned decimal-degree value d + m/60 + s/3600. */
  function Magnitude(ll: LatLng): (m: real)
    requires ValidLatLng(ll)
    ensures m >= Quotient(ll.degrees)
    ensures 3600.0 * m == 3600.0 * Quotient(ll.degrees) + 60.0 * Quotient(ll.minutes) + Quotient(ll.seconds)
  {
    Quotient(ll.degrees) + Quotient(ll.minutes) / 60.0 + Quotient(ll.seconds) / 3600.0
  }

  /** The hemisphere references that make a coordinate negative. */
  predicate IsNegativeRef(refChar: char) {
    refChar == 'S' || refChar == 'W'
  }

  /** convert_latlng: sexagesimal to signed decimal degrees. */
  function ConvertLatLng(ll: LatLng, refChar: char): (r: real)
    requires ValidLatLng(ll)
    ensures IsNegativeRef(refChar) ==> r <= 0.0 && r == -Magnitude(ll)
    ensures !IsNegativeRef(refChar) ==> r >= 0.0 && r == Magnitude(ll)
  {
    var res := Magnitude(ll);
    if refChar == 'S' || refChar == 'W' then -res else res
  }

  /** Away from the equator and the prime meridian, the result is negative
      exactly when the reference is 'S' or 'W'. */
  lemma ConvertNegativeIff(ll: LatLng, refChar: char)
    requires ValidLatLng(ll)
    requires Magnitude(ll) > 0.0
    ensures ConvertLatLng(ll, refChar) < 0.0 <==> IsNegativeRef(refChar)
    ensures ConvertLatLng(ll, refChar) > 0.0 <==> !IsNegativeRef(refChar)
  {
  }

  /** Opposite hemispheres give opposite values. */
  lemma ConvertOppositeHemispheres(ll: LatLng)
    requires ValidLatLng(ll)
    ensures ConvertLatLng(ll, 'S') == -ConvertLatLng(ll, 'N')
    ensures ConvertLatLng(ll, 'W') == -ConvertLatLng(ll, 'E')
  {
  }

  /** 40 degrees 45 minutes 30 seconds north. */
  lemma ConvertExample()
    ensures ConvertLatLng(LatLng(URational(40, 1), URational(45, 1), URational(30, 1)), 'N')
         == 40.0 + 45.0 / 60.0 + 30.0 / 3600.0
    ensures ConvertLatLng(LatLng(URational(40, 1), URational(45, 1), URational(30, 1)), 'N')
         == 146730.0 / 3600.0
  {
  }

  /** The GPS block as the EXIF parser delivers it. */
  datatype GpsInfo = GpsInfo(
    latitudeRef: char,
    latitude: LatLng,
    longitudeRef: char,
    longitude: LatLng,
    altitudeRef: U8,
    altitude: URational)

  predicate ValidGps(gps: Option<GpsInfo>) {
    gps.Some? ==>
      ValidLatLng(gps.value.latitude) && ValidLatLng(gps.value.longitude) && NonZero(gps.value.altitude)
  }

  /** The canonical per-photo record; every field may be absent. */
  datatype PhotoMetadata = PhotoMetadata(
    latitude: Option<real>,
    longitude: Option<real>,
    altitude: Option<real>,
    timestamp: Option<string>,
    make: Option<string>,
    model: Option<string>,
    lens: Option<string>,
    exposure: Option<string>,
    fNumber: Option<string>,
    iso: Option<string>)

  /** PhotoMetadata::default(). */
  const EmptyMetadata := PhotoMetadata(None, None, None, None, None, None, None, None, None, None)

  /** The EXIF tags the fold recognises; any other tag is OtherTag. */
  datatype Tag =
    | Make | Model | LensModel | LensInfo | ExposureTime | FNumber
    | ISOSpeedRatings | DateTimeOriginal | CreateDate
    | OtherTag(name: string)

  /** One EXIF entry: its tag, if the parser knows it, and its value rendered as text. */
  datatype ExifEntry = ExifEntry(tag: Option<Tag>, value: Option<string>)

  /** The text written for an entry: a missing value is the empty string. */
  function Text(e: ExifEntry): string {
    e.value.GetOr("")
  }

  /** The textual fields of the record that entries write. */
  datatype Field =
    | MakeField | ModelField | LensField | ExposureField | FNumberField | IsoField | TimestampField

  /** The dispatch table from tags to fields; None means the entry is ignored. */
  function FieldOf(tag: Option<Tag>): Option<Field> {
    match tag
    case Some(Make) => Some(MakeField)
    case Some(Model) => Some(ModelField)
    case Some(LensModel) => Some(LensField)
    case Some(LensInfo) => Some(LensField)
    case Some(ExposureTime) => Some(ExposureField)
    case Some(FNumber) => Some(FNumberField)
    case Some(ISOSpeedRatings) => Some(IsoField)
    case Some(DateTimeOriginal) => Some(TimestampField)
    case Some(CreateDate) => Some(TimestampField)
    case _ => None
  }

  predicate Writes(e: ExifEntry, f: Field) {
    FieldOf(e.tag) == Some(f)
  }

  /** The record's value for a textual field. */
  function Get(m: PhotoMetadata, f: Field): Option<string> {
    match f
    case MakeField => m.make
    case ModelField => m.model
    case LensField => m.lens
    case ExposureField => m.exposure
    case FNumberField => m.fNumber
    case IsoField => m.iso
    case TimestampField => m.timestamp
  }

  /** The text of the last entry that writes f, if any. */
  function LastWrite(es: seq<ExifEntry>, f: Field): Option<string> {
    if es == [] then None
    else if Writes(es[|es| - 1], f) then Some(Text(es[|es| - 1]))
    else LastWrite(es[..|es| - 1], f)
  }

  /** The text of the first entry that writes f, if any. */
  function FirstWrite(es: seq<ExifEntry>, f: Field): Option<string> {
    if es == [] then None
    else if Writes(es[0], f) then Some(Text(es[0]))
    else FirstWrite(es[1..], f)
  }

  /** The record extract_metadata produces: GPS fields from the GPS block,
      the timestamp from the first timestamp entry, every other textual
      field from the last entry that writes it. */
  function Extracted(gps: Option<GpsInfo>, es: seq<ExifEntry>): (r: PhotoMetadata)
    requires ValidGps(gps)
    ensures r.latitude.Some? <==> gps.Some?
    ensures r.longitude.Some? <==> r.latitude.Some?
    ensures r.altitude.Some? <==> r.latitude.Some?
    ensures r.altitude.Some? ==> r.altitude.value >= 0.0
    ensures forall f :: f != TimestampField ==> Get(r, f) == LastWrite(es, f)
    ensures r.timestamp == FirstWrite(es, TimestampField)
  {
    PhotoMetadata(
      latitude := if gps.Some? then Some(ConvertLatLng(gps.value.latitude, gps.value.latitudeRef)) else None,
      longitude := if gps.Some? then Some(ConvertLatLng(gps.value.longitude, gps.value.longitudeRef)) else None,
      altitude := if gps.Some? then Some(Quotient(gps.value.altitude)) else None,
      timestamp := FirstWrite(es, TimestampField),
      make := LastWrite(es, MakeField),
      model := LastWrite(es, ModelField),
      lens := LastWrite(es, LensField),
      exposure := LastWrite(es, ExposureField),
      fNumber := LastWrite(es, FNumberField),
      iso := LastWrite(es, IsoField))
  }

  /** extract_metadata: fill the GPS fields, then walk the entries in order,
      each recognised tag overwriting its field, except that the timestamp
      is only written while still absent. */
  method ExtractMetadata(gps: Option<GpsInfo>, entries: seq<ExifEntry>) returns (meta: PhotoMetadata)
    requires ValidGps(gps)
    ensures meta == Extracted(gps, entries)
  {
    meta := EmptyMetadata;
    if gps.Some? {
      var g := gps.value;
      meta := meta.(
        latitude := Some(ConvertLatLng(g.latitude, g.latitudeRef)),
        longitude := Some(ConvertLatLng(g.longitude, g.longitudeRef)),
        altitude := Some(Quotient(g.altitude)));
    }
    for i := 0 to |entries|
      invariant meta == Extracted(gps, entries[..i])
    {
      var entry := entries[i];
      var value := entry.value.GetOr("");
      match entry.tag {
        case Some(Make) => meta := meta.(make := Some(value));
        case Some(Model) => meta := meta.(model := Some(value));
        case Some(LensModel) => meta := meta.(lens := Some(value));
        case Some(LensInfo) => meta := meta.(lens := Some(value));
        case Some(ExposureTime) => meta := meta.(exposure := Some(value));
        case Some(FNumber) => meta := meta.(fNumber := Some(value));
        case Some(ISOSpeedRatings) => meta := meta.(iso := Some(value));
        case Some(DateTimeOriginal) =>
          if meta.timestamp.None? {
            meta := meta.(timestamp := Some(value));
          }
        case Some(CreateDate) =>
          if meta.timestamp.None? {
            meta := meta.(timestamp := Some(value));
          }
        case _ =>
      }
      assert entries[..i + 1][..i] == entries[..i];
      FirstWriteConcat(entries[..i], [entry], TimestampField);
      assert entries[..i] + [entry] == entries[..i + 1];
    }
    assert entries[..|entries|] == entries;
  }

  // ---------------------------------------------------------------------
  // Properties of the per-field precedence rules

  /** No entry writes f exactly when LastWrite finds nothing. */
  lemma {:induction false} LastWriteNoneIff(es: seq<ExifEntry>, f: Field)
    ensures LastWrite(es, f).None? <==> forall i :: 0 <= i < |es| ==> !Writes(es[i], f)
  {
    if es != [] {
      var init := es[..|es| - 1];
      LastWriteNoneIff(init, f);
      assert forall i :: 0 <= i < |init| ==> init[i] == es[i];
    }
  }

  /** The last entry that writes f supplies the value. */
  lemma {:induction false} LastWriteAt(es: seq<ExifEntry>, f: Field, i: int)
    requires 0 <= i < |es| && Writes(es[i], f)
    requires forall j :: i < j < |es| ==> !Writes(es[j], f)
    ensures LastWrite(es, f) == Some(Text(es[i]))
  {
    if i < |es| - 1 {
      var init := es[..|es| - 1];
      assert forall j :: 0 <= j < |init| ==> init[j] == es[j];
      LastWriteAt(init, f, i);
    }
  }

  /** No entry writes f exactly when FirstWrite finds nothing. */
  lemma {:induction false} FirstWriteNoneIff(es: seq<ExifEntry>, f: Field)
    ensures FirstWrite(es, f).None? <==> forall i :: 0 <= i < |es| ==> !Writes(es[i], f)
  {
    if es != [] {
      FirstWriteNoneIff(es[1..], f);
      assert forall i :: 1 <= i < |es| ==> es[1..][i - 1] == es[i];
    }
  }

  /** The first entry that writes f supplies the value. */
  lemma {:induction false} FirstWriteAt(es: seq<ExifEntry>, f: Field, i: int)
    requires 0 <= i < |es| && Writes(es[i], f)
    requires forall j :: 0 <= j < i ==> !Writes(es[j], f)
    ensures FirstWrite(es, f) == Some(Text(es[i]))
  {
    if i > 0 {
      assert forall j :: 0 <= j < i - 1 ==> es[1..][j] == es[j + 1];
      FirstWriteAt(es[1..], f, i - 1);
    }
  }

  /** Later entries override earlier ones. */
  lemma {:induction false} LastWriteConcat(a: seq<ExifEntry>, b: seq<ExifEntry>, f: Field)
    ensures LastWrite(a + b, f) == if LastWrite(b, f).Some? then LastWrite(b, f) else LastWrite(a, f)
  {
    if b != [] {
      assert (a + b)[..|a + b| - 1] == a + b[..|b| - 1];
      LastWriteConcat(a, b[..|b| - 1], f);
    } else {
      assert a + b == a;
    }
  }

  /** Earlier entries shadow later ones. */
  lemma {:induction false} FirstWriteConcat(a: seq<ExifEntry>, b: seq<ExifEntry>, f: Field)
    ensures FirstWrite(a + b, f) == if FirstWrite(a, f).Some? then FirstWrite(a, f) else FirstWrite(b, f)
  {
    if a != [] {
      assert (a + b)[1..] == a[1..] + b;
      FirstWriteConcat(a[1..], b, f);
    } else {
      assert a + b == b;
    }
  }

  // ---------------------------------------------------------------------
  // Properties of the extracted record

  /** For make, model, lens, exposure, f-number and ISO, an entry appended
      last decides the field. */
  lemma LastEntryWins(gps: Option<GpsInfo>, es: seq<ExifEntry>, e: ExifEntry, f: Field)
    requires ValidGps(gps)
    requires Writes(e, f) && f != TimestampField
    ensures Get(Extracted(gps, es + [e]), f) == Some(Text(e))
  {
    LastWriteConcat(es, [e], f);
  }

  /** LensModel and LensInfo both write the lens: of two lens entries, the
      later one wins unless a further lens entry follows it, whatever other
      entries come after. */
  lemma LensLaterWins(gps: Option<GpsInfo>, es: seq<ExifEntry>, i: int, j: int)
    requires ValidGps(gps)
    requires 0 <= i < j < |es|
    requires es[i].tag == Some(LensModel) || es[i].tag == Some(LensInfo)
    requires es[j].tag == Some(LensModel) || es[j].tag == Some(LensInfo)
    requires forall k :: j < k < |es| ==> !Writes(es[k], LensField)
    ensures Extracted(gps, es).lens == Some(Text(es[j]))
  {
    LastWriteAt(es, LensField, j);
  }

  /** Once a timestamp is found, further entries never change it. */
  lemma TimestampFirstStays(gps: Option<GpsInfo>, es: seq<ExifEntry>, more: seq<ExifEntry>)
    requires ValidGps(gps)
    requires FirstWrite(es, TimestampField).Some?
    ensures Extracted(gps, es + more).timestamp == Extracted(gps, es).timestamp
  {
    FirstWriteConcat(es, more, TimestampField);
  }

  /** The timestamp is the text of the first DateTimeOriginal or CreateDate entry. */
  lemma TimestampIsFirst(gps: Option<GpsInfo>, es: seq<ExifEntry>, i: int)
    requires ValidGps(gps)
    requires 0 <= i < |es| && (es[i].tag == Some(DateTimeOriginal) || es[i].tag == Some(CreateDate))
    requires forall j :: 0 <= j < i ==> es[j].tag != Some(DateTimeOriginal) && es[j].tag != Some(CreateDate)
    ensures Extracted(gps, es).timestamp == Some(Text(es[i]))
  {
    FirstWriteAt(es, TimestampField, i);
  }

  /** Any textual field is absent exactly when no entry writes it. */
  lemma AbsentIffNoEntry(gps: Option<GpsInfo>, es: seq<ExifEntry>, f: Field)
    requires ValidGps(gps)
    ensures Get(Extracted(gps, es), f).None? <==> forall i :: 0 <= i < |es| ==> !Writes(es[i], f)
  {
    LastWriteNoneIff(es, f);
    FirstWriteNoneIff(es, f);
  }

  /** An entry with an unrecognised tag leaves the record as it would be without it. */
  lemma UnrecognisedEntryIgnored(gps: Option<GpsInfo>, a: seq<ExifEntry>, e: ExifEntry, b: seq<ExifEntry>)
    requires ValidGps(gps)
    requires FieldOf(e.tag).None?
    ensures Extracted(gps, a + [e] + b) == Extracted(gps, a + b)
  {
    forall f: Field
      ensures LastWrite(a + [e] + b, f) == LastWrite(a + b, f)
      ensures FirstWrite(a + [e] + b, f) == FirstWrite(a + b, f)
    {
      LastWriteConcat(a + [e], b, f);
      LastWriteConcat(a, [e], f);
      LastWriteConcat(a, b, f);
      assert a + [e] + b == a + ([e] + b);
      FirstWriteConcat(a, [e] + b, f);
      FirstWriteConcat(a, b, f);
      assert ([e] + b)[1..] == b;
    }
  }

  /** A recognised entry that has no value writes the empty string. */
  lemma ValuelessEntryWritesEmpty(gps: Option<GpsInfo>, es: seq<ExifEntry>, t: Tag, f: Field)
    requires ValidGps(gps)
    requires FieldOf(Some(t)) == Some(f) && f != TimestampField
    ensures Get(Extracted(gps, es + [ExifEntry(Some(t), None)]), f) == Some("")
  {
    LastEntryWins(gps, es, ExifEntry(Some(t), None), f);
  }

  /** The altitude is the plain quotient: the altitude reference byte is never applied. */
  lemma AltitudeIgnoresReference(g: GpsInfo, ref: U8, es: seq<ExifEntry>)
    requires ValidGps(Some(g))
    ensures Extracted(Some(g.(altitudeRef := ref)), es) == Extracted(Some(g), es)
    ensures Extracted(Some(g), es).altitude == Some(Quotient(g.altitude))
  {
  }
}

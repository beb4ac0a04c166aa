# GeoPic photo metadata: a Dafny model

GeoPic reads the location and camera data embedded in a photo. This project
models how that raw data becomes a `PhotoMetadata` record. The record has ten
optional fields: latitude, longitude, altitude, timestamp, make, model, lens,
exposure, f-number and ISO. Two producers of the record are modelled.

- **Embedded EXIF** (`src/metadata.rs`, module `Metadata` in `metadata.dfy`).
  The GPS block fills latitude, longitude and altitude together. Latitude and
  longitude are converted from degrees/minutes/seconds to signed decimal
  degrees. Then the EXIF entries are walked in order, and each recognised tag
  writes one field. Make, model, lens, exposure, f-number and ISO take the last
  write. `LensModel` and `LensInfo` both write the lens. The timestamp takes the
  first `DateTimeOriginal` or `CreateDate` entry. `ExtractMetadata` is the loop
  itself. It is proved equal to `Extracted`, a declarative per-field
  definition: `LastWrite`/`FirstWrite` over the `FieldOf` tag-to-field table.
- **Deep scan with exiftool** (`src/external.rs`, module `External` in
  `external.dfy`). The outcome of running the tool is an input (`ToolRun`): the
  process did not start, or it exited with a status and its output did or did
  not parse as JSON. `DeepScan` fails only on a failed spawn, a non-zero exit,
  unparsable output, output that is not an array, or an empty array. Otherwise
  it maps the first array element onto a fresh default record. Each field is set
  exactly when its key is present with the expected JSON type.

`wrappers.dfy` holds the `Option` type that the record's fields use.

Modelling choices:

- EXIF rationals are pairs of unsigned 32-bit integers (`U32`). They are
  evaluated exactly over `real`, and non-zero denominators are a precondition.
- An entry's tag is `Option<Tag>`, and `Tag` has one variant per recognised
  EXIF tag. The source compares the debug text of a tag with both `"Some(X)"`
  and `"X"`. Here one variant stands for both spellings, and an entry without a
  known tag matches nothing.
- An entry's value is already rendered as text. A missing value is written as
  the empty string.
- The GPS block carries the altitude reference byte. The source never reads
  it, and `AltitudeIgnoresReference` states that it has no effect.
- In the JSON model, `JInt` is a number serde_json keeps as an integer and
  `JFloat` is any other number. `as_f64` accepts both, and `as_i64` accepts
  only integers in the signed 64-bit range.
- The `{:.1}` formatting of the f-number is a function parameter
  (`formatFNumber`). ISO's `to_string` is modelled by `DecimalString`, which is
  proved to parse back to the integer and to be the one canonical decimal text
  for it (no leading zeros).

Two facts about the code shape the model:

- The embedded path always sets latitude and longitude together (`Extracted`).
  The deep scan reads `GPSLatitude` and `GPSLongitude` independently, so it can
  set one without the other (`LatitudeWithoutLongitude`).
- The code has no merge of the two producers, no batch mode and no request
  pacing, so none of these is modelled.

## Model

| member | source | states |
|---|---|---|
| `Metadata.Quotient` | src/metadata.rs:53-55 | a rational's value is non-negative and, times the denominator, gives the numerator |
| `Metadata.Magnitude` | src/metadata.rs:53-57 | the unsigned value satisfies 3600·v = 3600·d + 60·m + s, so it is d + m/60 + s/3600 and at least the degrees |
| `Metadata.ConvertLatLng` | src/metadata.rs:52-62 | the result is minus the unsigned value and ≤ 0 for reference 'S' or 'W'; for any other reference it is the unsigned value and ≥ 0 |
| `Metadata.ConvertNegativeIff` | src/metadata.rs:57-61 | away from zero, the result is negative exactly when the reference is 'S' or 'W', and positive exactly when it is not |
| `Metadata.ConvertOppositeHemispheres` | src/metadata.rs:58-60 | 'S' gives minus the 'N' value and 'W' minus the 'E' value |
| `Metadata.ConvertExample` | src/metadata.rs:53-57 | 40°45′30″ N converts to 40 + 45/60 + 30/3600 = 146730/3600 |
| `Metadata.Extracted` | src/metadata.rs:18-50 | latitude, longitude and altitude are all present exactly when there is a GPS block; altitude is non-negative; each field except the timestamp is the last write to it; the timestamp is the first write |
| `Metadata.ExtractMetadata` | src/metadata.rs:18-50 | the in-order loop over the entries, with its guarded timestamp write, produces exactly `Extracted` |
| `Metadata.LastWriteNoneIff` | src/metadata.rs:33-46 | the last-write rule yields nothing exactly when no entry writes the field |
| `Metadata.LastWriteAt` | src/metadata.rs:34-39 | the last entry that writes a field supplies its text |
| `Metadata.FirstWriteNoneIff` | src/metadata.rs:40-44 | the first-write rule yields nothing exactly when no entry writes the field |
| `Metadata.FirstWriteAt` | src/metadata.rs:40-44 | the first entry that writes a field supplies its text |
| `Metadata.LastWriteConcat` | src/metadata.rs:29-39 | over two runs of entries, a write in the later run overrides the earlier run |
| `Metadata.FirstWriteConcat` | src/metadata.rs:40-44 | over two runs of entries, a write in the earlier run shadows the later run |
| `Metadata.LastEntryWins` | src/metadata.rs:34-39 | for make, model, lens, exposure, f-number and ISO, an entry appended last decides the field |
| `Metadata.LensLaterWins` | src/metadata.rs:36 | of two lens entries, LensModel or LensInfo in any combination, the later one's text is the lens when no further lens entry follows it, whatever other entries come after |
| `Metadata.TimestampFirstStays` | src/metadata.rs:40-44 | once a timestamp is set, further entries never change it |
| `Metadata.TimestampIsFirst` | src/metadata.rs:40-44 | the timestamp is the text of the first DateTimeOriginal or CreateDate entry |
| `Metadata.AbsentIffNoEntry` | src/metadata.rs:19 | a textual field is absent exactly when no entry writes it |
| `Metadata.UnrecognisedEntryIgnored` | src/metadata.rs:45 | removing an entry with an unrecognised tag from anywhere in the stream leaves the record unchanged |
| `Metadata.ValuelessEntryWritesEmpty` | src/metadata.rs:31 | a recognised entry with no value sets its field to the empty string |
| `Metadata.AltitudeIgnoresReference` | src/metadata.rs:25 | altitude is the plain quotient of the altitude rational; the altitude reference byte changes nothing |
| `External.Digits` | src/external.rs:50 | the digits are all decimal, parse back to n and have no leading zero unless n is 0 |
| `External.DecimalString` | src/external.rs:50 | an integer's decimal text is canonical (no leading zeros, no "-0"), starts with '-' exactly for negatives and parses back to the integer |
| `External.DigitsUnique` | src/external.rs:50 | a digit string without a leading zero is exactly the digits of its own value |
| `External.DecimalStringUnique` | src/external.rs:50 | canonical decimal text is exactly the text printed for the value it denotes, so the rendering of an integer is unique |
| `External.FromExiftoolObject` | src/external.rs:38-52 | latitude, longitude, altitude and f-number are set exactly when their key holds a number; make, model, lens and exposure exactly when their key holds a string, with that string; ISO exactly when it holds a 64-bit integer, as its canonical decimal text (unique by `DecimalStringUnique`); the timestamp is never set |
| `External.DeepScan` | src/external.rs:24-53 | a record results exactly when the tool ran, exited successfully and printed a non-empty JSON array; it is the mapping of the array's first element |
| `External.OnlyFirstElementUsed` | src/external.rs:36 | elements after the first do not affect the result |
| `External.NonObjectGivesEmptyRecord` | src/external.rs:36-52 | a first element that is not an object yields the default record rather than a failure |
| `External.LatitudeWithoutLongitude` | src/external.rs:41-42 | an object with only GPSLatitude yields a record with latitude and without longitude |
| `External.StringIsoIgnored` | src/external.rs:50 | an ISO given as a JSON string leaves the field absent |
| `External.IsoExample` | src/external.rs:50 | ISO 400 is rendered as "400" |

## Left out

- `src/main.rs`: argument parsing, the file-existence check, parser setup and the bilingual console output. Its one decision, geocoding only when both coordinates are present (src/main.rs:68), guards a network call that is not modelled.
- `src/geocoding.rs`: the HTTP client with its timeout, User-Agent and status handling is network I/O.
- The availability probe `is_exiftool_available`, the `Command` call in `deep_scan` and `print_dependency_warning` are process I/O and presentation. The tool's outcome is the `ToolRun` input, and the UTF-8 decoding and JSON parsing of its output become the `parsed` field.
- The EXIF parser is foreign library code: `MediaParser`, the entry iterator, `parse_gps_info` and the text rendering of entry values. The GPS block (`None` when it is missing or fails to parse) and the entry sequence are inputs.
- f64 behaviour: rationals with a zero denominator give NaN or infinity in the source. Here they are excluded by `ValidGps`/`ValidLatLng`, and rounding is not modelled since arithmetic is exact over `real`. A JSON integer's conversion to f64 is also exact here.
- The `{:.1}` text of the f-number is the `formatFNumber` parameter and is not defined.
- No merge of the two producers, batch mode, request pacing or export is modelled, because the code has none. `src/external.rs` is not even declared as a module in `src/main.rs:1-2`.

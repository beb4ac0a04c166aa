/** The deep scan: the JSON that exiftool prints for one file, mapped onto a
    photo metadata record. Running the tool is not modelled; its outcome is
    an input. */
module External {
  import opened Wrappers
  import opened Metadata

  /** A parsed serde_json value. JInt holds a number the parser kept as an
      integer; JFloat any other number. */
  datatype JsonVal =
    | JNull
    | JBool(b: bool)
    | JInt(i: int)
    | JFloat(x: real)
    | JStr(s: string)
    | JArray(items: seq<JsonVal>)
    | JObject(fields: map<string, JsonVal>)

  const I64Min: int := -0x8000_0000_0000_0000
  const I64Max: int := 0x7fff_ffff_ffff_ffff

  /** What running `exiftool -json ...` gave: the process could not be
      started, or it exited with a status and its output did or did not
      parse as JSON. */
  datatype ToolRun =
    | SpawnFailed
    | Exited(success: bool, parsed: Option<JsonVal>)

  /** Value::get with a string key: only an object has keys. */
  function Lookup(v: JsonVal, key: string): Option<JsonVal> {
    if v.JObject? && key in v.fields then Some(v.fields[key]) else None
  }

  /** Value::as_f64: every JSON number converts. */
  function AsF64(v: JsonVal): Option<real> {
    match v
    case JInt(i) => Some(i as real)
    case JFloat(x) => Some(x)
    case _ => None
  }

  /** Value::as_i64: only integers that fit in 64 signed bits. */
  function AsI64(v: JsonVal): Option<int> {
    match v
    case JInt(i) => if I64Min <= i <= I64Max then Some(i) else None
    case _ => None
  }

  /** Value::as_str. */
  function AsStr(v: JsonVal): Option<string> {
    match v
    case JStr(s) => Some(s)
    case _ => None
  }

  /** `item.get(key).and_then(conv)`. */
  function GetAs<T>(item: JsonVal, key: string, conv: JsonVal -> Option<T>): Option<T> {
    match Lookup(item, key)
    case Some(v) => conv(v)
    case None => None
  }

  // ---------------------------------------------------------------------
  // Decimal rendering of integers (Rust's i64 to_string)

  function DigitChar(d: nat): char
    requires d < 10
  {
    (48 + d) as char
  }

  predicate IsDigit(c: char) {
    '0' <= c <= '9'
  }

  function DigitValue(c: char): nat
    requires IsDigit(c)
  {
    c as int - 48
  }

  /** The value a string of decimal digits denotes. */
  function ParseDigits(s: string): nat
    requires forall k :: 0 <= k < |s| ==> IsDigit(s[k])
  {
    if s == [] then 0 else ParseDigits(s[..|s| - 1]) * 10 + DigitValue(s[|s| - 1])
  }

  /** The shortest decimal digits of n. */
  function Digits(n: nat): (s: string)
    ensures |s| >= 1
    ensures forall k :: 0 <= k < |s| ==> IsDigit(s[k])
    ensures ParseDigits(s) == n
    ensures s[0] == '0' ==> n == 0
  {
    if n < 10 then [DigitChar(n)]
    else
      var init := Digits(n / 10);
      var s := init + [DigitChar(n % 10)];
      assert s[..|s| - 1] == init;
      s
  }

  /** The value of an optionally '-'-signed string of decimal digits. */
  predicate IsDecimal(s: string) {
    if |s| > 0 && s[0] == '-' then
      |s| > 1 && forall k :: 1 <= k < |s| ==> IsDigit(s[k])
    else
      |s| > 0 && forall k :: 0 <= k < |s| ==> IsDigit(s[k])
  }

  function ParseDecimal(s: string): int
    requires IsDecimal(s)
  {
    if s[0] == '-' then
      assert forall k :: 0 <= k < |s[1..]| ==> s[1..][k] == s[k + 1];
      -(ParseDigits(s[1..]) as int)
    else ParseDigits(s)
  }

  /** Decimal text in the form to_string prints it: no leading zeros, and
      no "-0". */
  predicate CanonicalDecimal(s: string) {
    IsDecimal(s) &&
    (s[0] == '-' ==> s[1] != '0') &&
    (s[0] == '0' ==> s == "0")
  }

  /** to_string of an integer: a '-' for negatives, then the digits. */
  function DecimalString(n: int): (s: string)
    ensures CanonicalDecimal(s)
    ensures ParseDecimal(s) == n
    ensures (s[0] == '-') <==> n < 0
  {
    if n < 0 then
      var d := Digits(-n);
      var s := "-" + d;
      assert s[1..] == d;
      s
    else Digits(n)
  }

  lemma DigitCharValue(c: char)
    requires IsDigit(c)
    ensures DigitChar(DigitValue(c)) == c
  {
  }

  lemma DivModTen(p: nat, d: nat)
    requires d < 10
    ensures (p * 10 + d) / 10 == p && (p * 10 + d) % 10 == d
  {
  }

  /** A digit string without a leading zero is the digits of its own value. */
  lemma {:induction false} DigitsUnique(s: string)
    requires |s| >= 1 && forall k :: 0 <= k < |s| ==> IsDigit(s[k])
    requires s[0] == '0' ==> |s| == 1
    ensures s == Digits(ParseDigits(s))
  {
    var last := s[|s| - 1];
    var d := DigitValue(last);
    DigitCharValue(last);
    if |s| == 1 {
      assert ParseDigits(s) == d;
    } else {
      var init := s[..|s| - 1];
      DigitsUnique(init);
      var p := ParseDigits(init);
      var n := ParseDigits(s);
      assert n == p * 10 + d;
      DivModTen(p, d);
      assert n >= 10;
      assert Digits(n) == Digits(p) + [DigitChar(d)];
      assert s == init + [last];
    }
  }

  /** Canonical decimal text is unique: it is exactly what to_string prints
      for the value it denotes. */
  lemma DecimalStringUnique(s: string)
    requires CanonicalDecimal(s)
    ensures s == DecimalString(ParseDecimal(s))
  {
    if s[0] == '-' {
      var d := s[1..];
      DigitsUnique(d);
      assert s == "-" + d;
    } else {
      DigitsUnique(s);
    }
  }

  // ---------------------------------------------------------------------
  // The mapping

  /** Holds when `key` is present in the object `item` and its value satisfies `kind`. */
  predicate KeyHolds(item: JsonVal, key: string, kind: JsonVal -> bool) {
    item.JObject? && key in item.fields && kind(item.fields[key])
  }

  predicate IsNumber(v: JsonVal) {
    v.JInt? || v.JFloat?
  }

  function NumberValue(v: JsonVal): real
    requires IsNumber(v)
  {
    if v.JInt? then v.i as real else v.x
  }

  predicate IsString(v: JsonVal) {
    v.JStr?
  }

  predicate IsI64(v: JsonVal) {
    v.JInt? && I64Min <= v.i <= I64Max
  }

  /** The record built from the first element of exiftool's output array,
      starting from the default record. `formatFNumber` is Rust's `{:.1}`
      formatting of an f64. */
  function FromExiftoolObject(item: JsonVal, formatFNumber: real -> string): (r: PhotoMetadata)
    ensures r.latitude.Some? <==> KeyHolds(item, "GPSLatitude", IsNumber)
    ensures r.latitude.Some? ==> r.latitude.value == NumberValue(item.fields["GPSLatitude"])
    ensures r.longitude.Some? <==> KeyHolds(item, "GPSLongitude", IsNumber)
    ensures r.longitude.Some? ==> r.longitude.value == NumberValue(item.fields["GPSLongitude"])
    ensures r.altitude.Some? <==> KeyHolds(item, "GPSAltitude", IsNumber)
    ensures r.altitude.Some? ==> r.altitude.value == NumberValue(item.fields["GPSAltitude"])
    ensures r.make.Some? <==> KeyHolds(item, "Make", IsString)
    ensures r.make.Some? ==> JStr(r.make.value) == item.fields["Make"]
    ensures r.model.Some? <==> KeyHolds(item, "Model", IsString)
    ensures r.model.Some? ==> JStr(r.model.value) == item.fields["Model"]
    ensures r.lens.Some? <==> KeyHolds(item, "LensModel", IsString)
    ensures r.lens.Some? ==> JStr(r.lens.value) == item.fields["LensModel"]
    ensures r.exposure.Some? <==> KeyHolds(item, "ExposureTime", IsString)
    ensures r.exposure.Some? ==> JStr(r.exposure.value) == item.fields["ExposureTime"]
    ensures r.fNumber.Some? <==> KeyHolds(item, "FNumber", IsNumber)
    ensures r.fNumber.Some? ==> r.fNumber.value == formatFNumber(NumberValue(item.fields["FNumber"]))
    ensures r.iso.Some? <==> KeyHolds(item, "ISO", IsI64)
    ensures r.iso.Some? ==> CanonicalDecimal(r.iso.value) && JInt(ParseDecimal(r.iso.value)) == item.fields["ISO"]
    ensures r.timestamp.None?
  {
    var fNumber := GetAs(item, "FNumber", AsF64);
    var iso := GetAs(item, "ISO", AsI64);
    EmptyMetadata.(
      latitude := GetAs(item, "GPSLatitude", AsF64),
      longitude := GetAs(item, "GPSLongitude", AsF64),
      altitude := GetAs(item, "GPSAltitude", AsF64),
      make := GetAs(item, "Make", AsStr),
      model := GetAs(item, "Model", AsStr),
      lens := GetAs(item, "LensModel", AsStr),
      exposure := GetAs(item, "ExposureTime", AsStr),
      fNumber := if fNumber.Some? then Some(formatFNumber(fNumber.value)) else None,
      iso := if iso.Some? then Some(DecimalString(iso.value)) else None)
  }

  /** ExternalScanner::deep_scan, after the tool has run. */
  function DeepScan(run: ToolRun, formatFNumber: real -> string): (r: Option<PhotoMetadata>)
    ensures r.Some? <==>
      run.Exited? && run.success && run.parsed.Some? && run.parsed.value.JArray? && |run.parsed.value.items| > 0
    ensures r.Some? ==> r.value == FromExiftoolObject(run.parsed.value.items[0], formatFNumber)
  {
    match run
    case SpawnFailed => None
    case Exited(success, parsed) =>
      if !success then None
      else if parsed.None? then None
      else if !parsed.value.JArray? || parsed.value.items == [] then None
      else Some(FromExiftoolObject(parsed.value.items[0], formatFNumber))
  }

  // ---------------------------------------------------------------------
  // Properties of the deep scan

  /** Only the first element of the output array matters. */
  lemma OnlyFirstElementUsed(item: JsonVal, rest1: seq<JsonVal>, rest2: seq<JsonVal>, formatFNumber: real -> string)
    ensures DeepScan(Exited(true, Some(JArray([item] + rest1))), formatFNumber)
         == DeepScan(Exited(true, Some(JArray([item] + rest2))), formatFNumber)
         == Some(FromExiftoolObject(item, formatFNumber))
  {
  }

  /** A first element that is not an object yields the default record, not a failure. */
  lemma NonObjectGivesEmptyRecord(item: JsonVal, formatFNumber: real -> string)
    requires !item.JObject?
    ensures FromExiftoolObject(item, formatFNumber) == EmptyMetadata
  {
  }

  /** Latitude and longitude are read independently: one can be present without the other. */
  lemma LatitudeWithoutLongitude(formatFNumber: real -> string)
    ensures DeepScan(Exited(true, Some(JArray([JObject(map["GPSLatitude" := JFloat(41.5)])]))), formatFNumber)
         == Some(EmptyMetadata.(latitude := Some(41.5)))
  {
    var obj := JObject(map["GPSLatitude" := JFloat(41.5)]);
    assert "GPSLongitude" !in obj.fields;
  }

  /** An ISO written as a JSON string leaves the field absent. */
  lemma StringIsoIgnored(fields: map<string, JsonVal>, s: string, formatFNumber: real -> string)
    ensures FromExiftoolObject(JObject(fields["ISO" := JStr(s)]), formatFNumber).iso.None?
  {
  }

  /** An integer ISO is rendered as its decimal string, e.g. 400 as "400". */
  lemma IsoExample(formatFNumber: real -> string)
    ensures FromExiftoolObject(JObject(map["ISO" := JInt(400)]), formatFNumber).iso == Some("400")
  {
    assert Digits(4) == "4";
    assert Digits(40) == "40";
    assert Digits(400) == "400";
  }
}

/** The per-photo correction decision of `process_image_file`: read the
    device identity and the capture timestamps from the container, shift
    both timestamps by one hour unless the device is on the list, work out
    the instant the GPS fields should hold (the capture time moved from
    UTC-7 to UTC) and rewrite the GPS fields when they are missing or more
    than 120 seconds away from it. */
module Correction {
  import opened Outcomes
  import opened Calendar
  import opened TimestampText
  import opened Exif

  /** The camera's zone: local capture time is UTC-7. */
  const TargetTimeZoneUtcOffset := -7
  /** How far a stored GPS time may be from the expected instant. */
  const GpsToleranceSeconds := 120
  /** The devices whose clock is left alone; every other device is shifted. */
  const TargetDevicesOffByOneHour: seq<string> := ["SONY/ILCE-7M3"]

  /** The identity the list is keyed by. */
  function Device(make: string, model: string): string {
    make + "/" + model
  }

  function Abs(x: int): int {
    if x < 0 then -x else x
  }

  /** The UTC instant of a local capture time: `local - timedelta(hours=-7)`. */
  function ExpectedGpsInstant(local: DateTime): (r: Result<DateTime>)
    requires Valid(local)
    ensures r.Ok? ==> Valid(r.value) && ToSeconds(r.value) == ToSeconds(local) + 7 * 3600
    ensures r.Err? ==> r.error == OutOfRange && local.year == MaxYear
    ensures r.Ok? <==> ToSeconds(local) + 7 * 3600 <= MaxSeconds
  {
    Shift(local, -TargetTimeZoneUtcOffset * 3600)
  }

  /** The expected GPS instant of a DateTimeOriginal text, which is parsed first. */
  function ExpectedFor(original: string): (r: Result<DateTime>)
    ensures r.Ok? ==> Parse(original).Some? && Valid(r.value)
                      && ToSeconds(r.value) == ToSeconds(Parse(original).value) + 7 * 3600
    ensures Parse(original).None? ==> r == Err(BadTimestamp(original))
    ensures r.Err? ==> Parse(original).None? || (r.error == OutOfRange && Parse(original).value.year == MaxYear)
    ensures r.Ok? <==> Parse(original).Some? && ToSeconds(Parse(original).value) + 7 * 3600 <= MaxSeconds
  {
    match Parse(original)
    case None => Err(BadTimestamp(original))
    case Some(local) => ExpectedGpsInstant(local)
  }

  /** Hour, minute and second taken from the numerators of a GPSTimeStamp
      value; anything that cannot be a time of day is an error. */
  function GpsClock(v: TagValue): (r: Result<(int, int, int)>)
    ensures r.Ok? <==> v.Rationals? && |v.values| >= 3
                       && TimeInRange(v.values[0].0, v.values[1].0, v.values[2].0)
    ensures r.Ok? ==> r.value == (v.values[0].0, v.values[1].0, v.values[2].0)
    ensures r.Err? ==> r.error == BadGpsTime
  {
    if v.Rationals? && |v.values| >= 3 && TimeInRange(v.values[0].0, v.values[1].0, v.values[2].0) then
      Ok((v.values[0].0, v.values[1].0, v.values[2].0))
    else Err(BadGpsTime)
  }

  function ClockSeconds(clock: (int, int, int)): int {
    clock.0 * 3600 + clock.1 * 60 + clock.2
  }

  /** The GPSTimeStamp value that encodes the time of day of an instant. */
  function GpsTimeValue(t: DateTime): TagValue {
    Rationals([(t.hour, 1), (t.minute, 1), (t.second, 1)])
  }

  /** The stored GPS fields can be checked: either is missing, or the
      time stamp is a time of day and the date stamp has the full layout. */
  predicate GpsReadable(gpsTime: Option<TagValue>, gpsDate: Option<string>) {
    gpsTime.Some? && gpsDate.Some? ==> GpsClock(gpsTime.value).Ok? && Parse(gpsDate.value).Some?
  }

  /** Whether the stored GPS fields must be replaced. Missing fields must;
      present ones must when the time of day, put on the expected date, or
      the date stamp is more than the tolerance away from the expected
      instant. A date stamp is read with the full timestamp layout, and one
      that does not match it is an error, as is a time of day that is not
      one. */
  function GpsInvalid(gpsTime: Option<TagValue>, gpsDate: Option<string>, expected: DateTime): (r: Result<bool>)
    requires Valid(expected)
    ensures gpsTime.None? || gpsDate.None? ==> r == Ok(true)
    ensures gpsTime.Some? && gpsDate.Some? ==>
              (r.Ok? <==> GpsClock(gpsTime.value).Ok? && Parse(gpsDate.value).Some?)
    ensures r == Ok(false) <==>
              && gpsTime.Some? && gpsDate.Some?
              && GpsClock(gpsTime.value).Ok? && Parse(gpsDate.value).Some?
              && Abs(ClockSeconds(GpsClock(gpsTime.value).value) - SecondOfDay(expected)) <= GpsToleranceSeconds
              && Abs(ToSeconds(Parse(gpsDate.value).value) - ToSeconds(expected)) <= GpsToleranceSeconds
    ensures r.Ok? <==> GpsReadable(gpsTime, gpsDate)
    ensures r.Err? ==> r.error == BadGpsTime || r.error.BadTimestamp?
  {
    if gpsTime.None? || gpsDate.None? then Ok(true)
    else
      var clock :- GpsClock(gpsTime.value);
      var actual := DateTime(expected.year, expected.month, expected.day, clock.0, clock.1, clock.2);
      match Parse(gpsDate.value)
      case None => Err(BadTimestamp(gpsDate.value))
      case Some(stamp) =>
        Ok(Abs(ToSeconds(actual) - ToSeconds(expected)) > GpsToleranceSeconds
           || Abs(ToSeconds(stamp) - ToSeconds(expected)) > GpsToleranceSeconds)
  }

  /** The tags the correction may write. */
  predicate Touched(k: TagKey) {
    k == DateTimeOriginalTag || k == DateTimeDigitizedTag || k == GpsTimeStampTag || k == GpsDateStampTag
  }

  /** `after` holds the canonical text of the instant one hour after `before`. */
  predicate ShiftedByOneHour(before: TagValue, after: TagValue) {
    && before.Text? && after.Text?
    && Parse(before.text).Some? && Parse(after.text).Some?
    && ToSeconds(Parse(after.text).value) == ToSeconds(Parse(before.text).value) + 3600
  }

  /** What was read from the container (lines 75 to 87). */
  datatype Reading = Reading(device: string, original: string, digitized: string,
                             gpsTime: Option<TagValue>, gpsDate: Option<string>)

  function Read(tags: Tags): (r: Result<Reading>)
    ensures r.Ok? <==> && TextTag(tags, MakeTag).Ok? && TextTag(tags, ModelTag).Ok?
                       && TextTag(tags, DateTimeOriginalTag).Ok? && TextTag(tags, DateTimeDigitizedTag).Ok?
                       && OptionalTextTag(tags, GpsDateStampTag).Ok?
    ensures r.Ok? ==> && r.value.device == Device(tags[MakeTag].text, tags[ModelTag].text)
                      && Text(r.value.original) == tags[DateTimeOriginalTag]
                      && Text(r.value.digitized) == tags[DateTimeDigitizedTag]
                      && r.value.gpsTime == OptionalTag(tags, GpsTimeStampTag)
                      && r.value.gpsDate == OptionalTextTag(tags, GpsDateStampTag).value
  {
    var make :- TextTag(tags, MakeTag);
    var model :- TextTag(tags, ModelTag);
    var original :- TextTag(tags, DateTimeOriginalTag);
    var digitized :- TextTag(tags, DateTimeDigitizedTag);
    var gpsDate :- OptionalTextTag(tags, GpsDateStampTag);
    Ok(Reading(Device(make, model), original, digitized, OptionalTag(tags, GpsTimeStampTag), gpsDate))
  }

  /** The decision for one photo: whether to shift and the shifted texts,
      the expected GPS instant, and whether to rewrite the GPS fields. */
  datatype Decision = Decision(shift: bool, original: string, digitized: string,
                               expected: DateTime, rewriteGps: bool)

  /** The conditions under which lines 89 to 117 raise nothing: the
      timestamps they parse have the layout, neither the one-hour shift nor
      the seven-hour move to UTC passes the last representable instant, and
      the GPS fields can be checked. DateTimeDigitized is only read when it
      is shifted. */
  predicate Correctable(reading: Reading, offDevices: seq<string>) {
    var shift := reading.device !in offDevices;
    && Parse(reading.original).Some?
    && (shift ==> Parse(reading.digitized).Some?)
    && ToSeconds(Parse(reading.original).value) + (if shift then 3600 else 0) + 7 * 3600 <= MaxSeconds
    && (shift ==> ToSeconds(Parse(reading.digitized).value) + 3600 <= MaxSeconds)
    && GpsReadable(reading.gpsTime, reading.gpsDate)
  }

  /** Lines 89 to 117: the decision, from what was read. */
  function Decide(reading: Reading, offDevices: seq<string>): (r: Result<Decision>)
    ensures r.Ok? ==> r.value.shift == (reading.device !in offDevices)
    ensures r.Ok? && r.value.shift ==>
              && ShiftedByOneHour(Text(reading.original), Text(r.value.original))
              && ShiftedByOneHour(Text(reading.digitized), Text(r.value.digitized))
    ensures r.Ok? && !r.value.shift ==> r.value.original == reading.original && r.value.digitized == reading.digitized
    ensures r.Ok? ==> ExpectedFor(r.value.original) == Ok(r.value.expected)
    ensures r.Ok? ==> GpsInvalid(reading.gpsTime, reading.gpsDate, r.value.expected) == Ok(r.value.rewriteGps)
    ensures r.Ok? <==> Correctable(reading, offDevices)
    ensures r.Err? ==> r.error.BadTimestamp? || r.error == OutOfRange || r.error == BadGpsTime
  {
    var shift := reading.device !in offDevices;
    var texts :- ShiftedTexts(reading, shift);
    var expected :- ExpectedFor(texts.0);
    var invalid :- GpsInvalid(reading.gpsTime, reading.gpsDate, expected);
    Ok(Decision(shift, texts.0, texts.1, expected, invalid))
  }

  /** Lines 93 to 97: DateTimeOriginal and DateTimeDigitized after the
      shift, when there is one. */
  function ShiftedTexts(reading: Reading, shift: bool): (r: Result<(string, string)>)
    ensures !shift ==> r == Ok((reading.original, reading.digitized))
    ensures shift && r.Ok? ==>
              && ShiftedByOneHour(Text(reading.original), Text(r.value.0))
              && ShiftedByOneHour(Text(reading.digitized), Text(r.value.1))
    ensures shift ==> (r.Ok? <==> && Parse(reading.original).Some? && Parse(reading.digitized).Some?
                                  && ToSeconds(Parse(reading.original).value) + 3600 <= MaxSeconds
                                  && ToSeconds(Parse(reading.digitized).value) + 3600 <= MaxSeconds)
    ensures r.Err? ==> r.error.BadTimestamp? || r.error == OutOfRange
  {
    if !shift then Ok((reading.original, reading.digitized))
    else
      var original :- IncreaseByOneHour(reading.original);
      var digitized :- IncreaseByOneHour(reading.digitized);
      Ok((original, digitized))
  }

  /** Lines 96-97 and 119-125: write the decision into the container. */
  function Apply(tags: Tags, d: Decision): (r: Tags)
    requires DateTimeOriginalTag in tags && DateTimeDigitizedTag in tags && Valid(d.expected)
    ensures tags.Keys <= r.Keys <= tags.Keys + {GpsTimeStampTag, GpsDateStampTag}
    ensures forall k :: k in tags && !Touched(k) ==> r[k] == tags[k]
    ensures r[DateTimeOriginalTag] == if d.shift then Text(d.original) else tags[DateTimeOriginalTag]
    ensures r[DateTimeDigitizedTag] == if d.shift then Text(d.digitized) else tags[DateTimeDigitizedTag]
    ensures OptionalTag(r, GpsTimeStampTag) ==
              if d.rewriteGps then Some(GpsTimeValue(d.expected)) else OptionalTag(tags, GpsTimeStampTag)
    ensures OptionalTag(r, GpsDateStampTag) ==
              if d.rewriteGps then Some(Text(Format(d.expected))) else OptionalTag(tags, GpsDateStampTag)
  {
    var shifted := if d.shift then tags[DateTimeOriginalTag := Text(d.original)]
                                       [DateTimeDigitizedTag := Text(d.digitized)]
                   else tags;
    if d.rewriteGps then shifted[GpsTimeStampTag := GpsTimeValue(d.expected)]
                                [GpsDateStampTag := Text(Format(d.expected))]
    else shifted
  }

  /** The rewritten container and whether anything was changed. */
  datatype Corrected = Corrected(tags: Tags, updated: bool)

  /** Lines 73 to 126 of `process_image_file`, on the loaded container. */
  function Correct(tags: Tags, offDevices: seq<string>): (r: Result<Corrected>)
    ensures r.Ok? ==> Read(tags).Ok? && Decide(Read(tags).value, offDevices).Ok?
    ensures r.Ok? ==> tags.Keys <= r.value.tags.Keys <= tags.Keys + {GpsTimeStampTag, GpsDateStampTag}
    ensures r.Ok? && !r.value.updated ==> r.value.tags == tags
    ensures r.Ok? <==> Read(tags).Ok? && Correctable(Read(tags).value, offDevices)
  {
    var reading :- Read(tags);
    var d :- Decide(reading, offDevices);
    Ok(Corrected(Apply(tags, d), d.shift || d.rewriteGps))
  }

  // ---------------------------------------------------------------------
  // What the correction promises

  /** Both capture timestamps move forward one hour exactly when the device
      is not on the list, and the photo then counts as updated; a listed
      device keeps both. */
  lemma ShiftedIffNotListed(tags: Tags, offDevices: seq<string>)
    requires Correct(tags, offDevices).Ok?
    ensures var c := Correct(tags, offDevices).value;
            var device := Device(tags[MakeTag].text, tags[ModelTag].text);
            && (device !in offDevices ==>
                  && c.updated
                  && ShiftedByOneHour(tags[DateTimeOriginalTag], c.tags[DateTimeOriginalTag])
                  && ShiftedByOneHour(tags[DateTimeDigitizedTag], c.tags[DateTimeDigitizedTag]))
            && (device in offDevices ==>
                  && c.tags[DateTimeOriginalTag] == tags[DateTimeOriginalTag]
                  && c.tags[DateTimeDigitizedTag] == tags[DateTimeDigitizedTag])
  {
    CorrectUnfolds(tags, offDevices);
  }

  /** A container whose tags can all be read, whose capture timestamps
      have the layout and fall before the year 9999, and whose GPS fields
      (when both are there) can be decoded is always corrected without
      an error. */
  lemma CorrectSucceedsBeforeLastYear(tags: Tags, offDevices: seq<string>)
    requires Read(tags).Ok?
    requires Parse(tags[DateTimeOriginalTag].text).Some? && Parse(tags[DateTimeOriginalTag].text).value.year < MaxYear
    requires Parse(tags[DateTimeDigitizedTag].text).Some? && Parse(tags[DateTimeDigitizedTag].text).value.year < MaxYear
    requires GpsReadable(OptionalTag(tags, GpsTimeStampTag), OptionalTextTag(tags, GpsDateStampTag).value)
    ensures Correct(tags, offDevices).Ok?
  {
    EarlierYearHasHeadroom(Parse(tags[DateTimeOriginalTag].text).value);
    EarlierYearHasHeadroom(Parse(tags[DateTimeDigitizedTag].text).value);
  }

  lemma CorrectUnfolds(tags: Tags, offDevices: seq<string>)
    requires Correct(tags, offDevices).Ok?
    ensures var d := Decide(Read(tags).value, offDevices).value;
            Correct(tags, offDevices) == Ok(Corrected(Apply(tags, d), d.shift || d.rewriteGps))
  {
  }

  /** The expected GPS instant is the DateTimeOriginal the correction leaves
      behind, seven hours later: the as-read capture time plus one hour for
      a shifted device, plus seven hours. */
  lemma ExpectedFollowsShift(tags: Tags, offDevices: seq<string>)
    requires Correct(tags, offDevices).Ok?
    ensures var c := Correct(tags, offDevices).value;
            var device := Device(tags[MakeTag].text, tags[ModelTag].text);
            && c.tags[DateTimeOriginalTag].Text?
            && Parse(tags[DateTimeOriginalTag].text).Some?
            && var e := ExpectedFor(c.tags[DateTimeOriginalTag].text);
            && e.Ok?
            && ToSeconds(e.value) == ToSeconds(Parse(tags[DateTimeOriginalTag].text).value)
                                     + (if device in offDevices then 0 else 3600) + 7 * 3600
  {
    CorrectUnfolds(tags, offDevices);
    var d := Decide(Read(tags).value, offDevices).value;
    var c := Correct(tags, offDevices).value;
    assert c.tags[DateTimeOriginalTag] == Text(d.original);
    var before := Parse(tags[DateTimeOriginalTag].text).value;
    var after := Parse(d.original).value;
    assert ToSeconds(after) == ToSeconds(before) + (if d.shift then 3600 else 0);
    assert ToSeconds(d.expected) == ToSeconds(after) + 7 * 3600;
  }

  /** The GPS fields are rewritten to the expected instant exactly when the
      check finds them invalid, and left as they were otherwise; the photo
      counts as updated when it was shifted or its GPS fields rewritten. */
  lemma GpsRewrittenIffInvalid(tags: Tags, offDevices: seq<string>)
    requires Correct(tags, offDevices).Ok?
    ensures var c := Correct(tags, offDevices).value;
            var device := Device(tags[MakeTag].text, tags[ModelTag].text);
            && c.tags[DateTimeOriginalTag].Text?
            && var e := ExpectedFor(c.tags[DateTimeOriginalTag].text);
            && e.Ok?
            && var invalid := GpsInvalid(OptionalTag(tags, GpsTimeStampTag),
                                         OptionalTextTag(tags, GpsDateStampTag).value, e.value);
            && invalid.Ok?
            && c.updated == (device !in offDevices || invalid.value)
            && (invalid.value ==>
                  && OptionalTag(c.tags, GpsTimeStampTag) == Some(GpsTimeValue(e.value))
                  && OptionalTag(c.tags, GpsDateStampTag) == Some(Text(Format(e.value))))
            && (!invalid.value ==>
                  && OptionalTag(c.tags, GpsTimeStampTag) == OptionalTag(tags, GpsTimeStampTag)
                  && OptionalTag(c.tags, GpsDateStampTag) == OptionalTag(tags, GpsDateStampTag))
  {
    CorrectUnfolds(tags, offDevices);
  }

  /** No tag other than the two capture timestamps and the two GPS fields
      is added, removed or changed. */
  lemma OnlyTimestampTagsChange(tags: Tags, offDevices: seq<string>, k: TagKey)
    requires Correct(tags, offDevices).Ok?
    requires !Touched(k)
    ensures OptionalTag(Correct(tags, offDevices).value.tags, k) == OptionalTag(tags, k)
  {
    CorrectUnfolds(tags, offDevices);
    ApplyKeepsOthers(tags, Decide(Read(tags).value, offDevices).value, k);
  }

  lemma ApplyKeepsOthers(tags: Tags, d: Decision, k: TagKey)
    requires DateTimeOriginalTag in tags && DateTimeDigitizedTag in tags && Valid(d.expected)
    requires !Touched(k)
    ensures OptionalTag(Apply(tags, d), k) == OptionalTag(tags, k)
  {
  }

  /** GPS fields written from an expected instant pass the check against
      that same instant: both differences are 0 seconds. */
  lemma RewrittenGpsIsValid(e: DateTime)
    requires Valid(e)
    ensures GpsInvalid(Some(GpsTimeValue(e)), Some(Format(e)), e) == Ok(false)
  {
    ParseFormat(e);
  }

  /** Running the correction again on its own output changes nothing for a
      listed device: no shift, and the GPS fields now pass. */
  lemma RerunIsNoOpForListedDevice(tags: Tags, offDevices: seq<string>)
    requires Correct(tags, offDevices).Ok?
    requires Device(tags[MakeTag].text, tags[ModelTag].text) in offDevices
    ensures var c := Correct(tags, offDevices).value;
            Correct(c.tags, offDevices) == Ok(Corrected(c.tags, false))
  {
    CorrectUnfolds(tags, offDevices);
    var reading := Read(tags).value;
    var d := Decide(reading, offDevices).value;
    ReadUnshifted(tags, d);
    var reading' := Read(Apply(tags, d)).value;
    if d.rewriteGps {
      RewrittenGpsIsValid(d.expected);
    }
    assert Decide(reading', offDevices) == Ok(Decision(false, reading.original, reading.digitized, d.expected, false));
  }

  /** After a correction that did not shift, reading the container again
      gives the same device and timestamps, and the GPS fields as written. */
  lemma ReadUnshifted(tags: Tags, d: Decision)
    requires Read(tags).Ok? && Valid(d.expected) && !d.shift
    ensures Read(Apply(tags, d)).Ok?
    ensures var reading, reading' := Read(tags).value, Read(Apply(tags, d)).value;
            && reading'.device == reading.device
            && reading'.original == reading.original && reading'.digitized == reading.digitized
            && (d.rewriteGps ==> reading'.gpsTime == Some(GpsTimeValue(d.expected))
                                 && reading'.gpsDate == Some(Format(d.expected)))
            && (!d.rewriteGps ==> reading'.gpsTime == reading.gpsTime && reading'.gpsDate == reading.gpsDate)
  {
    ApplyKeepsOthers(tags, d, MakeTag);
    ApplyKeepsOthers(tags, d, ModelTag);
  }

  // ---------------------------------------------------------------------
  // Examples

  /** Local 11:00:00 at UTC-7 is 18:00:00 in GPS time. */
  lemma ExpectedInstantExample()
    ensures ExpectedGpsInstant(DateTime(2023, 6, 1, 11, 0, 0)) == Ok(DateTime(2023, 6, 1, 18, 0, 0))
  {
    ShiftIsUnique(DateTime(2023, 6, 1, 11, 0, 0), 7 * 3600, DateTime(2023, 6, 1, 18, 0, 0));
  }

  /** Three minutes off is rewritten. */
  lemma ThreeMinutesOffExample()
    ensures GpsInvalid(Some(Rationals([(18, 1), (3, 1), (0, 1)])), Some("2023:06:01 18:03:00"),
                       DateTime(2023, 6, 1, 18, 0, 0)) == Ok(true)
  {
    var stamp := DateTime(2023, 6, 1, 18, 3, 0);
    assert Format(stamp) == "2023:06:01 18:03:00";
    ParseFormat(stamp);
  }

  /** Ninety seconds off is kept. */
  lemma NinetySecondsOffExample()
    ensures GpsInvalid(Some(Rationals([(18, 1), (1, 1), (30, 1)])), Some("2023:06:01 18:01:30"),
                       DateTime(2023, 6, 1, 18, 0, 0)) == Ok(false)
  {
    var stamp := DateTime(2023, 6, 1, 18, 1, 30);
    assert Format(stamp) == "2023:06:01 18:01:30";
    ParseFormat(stamp);
  }

  /** Exactly the tolerance off is kept: the comparison is strict. */
  lemma ExactToleranceExample()
    ensures GpsInvalid(Some(Rationals([(18, 1), (2, 1), (0, 1)])), Some("2023:06:01 18:02:00"),
                       DateTime(2023, 6, 1, 18, 0, 0)) == Ok(false)
  {
    var stamp := DateTime(2023, 6, 1, 18, 2, 0);
    assert Format(stamp) == "2023:06:01 18:02:00";
    ParseFormat(stamp);
  }

  /** The GPS time of day is put on the expected date, so a fix taken just
      after midnight UTC reads as almost a day off and is rewritten. */
  lemma PastMidnightExample()
    ensures GpsInvalid(Some(Rationals([(0, 1), (0, 1), (10, 1)])), Some("2023:06:02 00:00:10"),
                       DateTime(2023, 6, 1, 23, 59, 30)) == Ok(true)
  {
    var stamp := DateTime(2023, 6, 2, 0, 0, 10);
    assert Format(stamp) == "2023:06:02 00:00:10";
    ParseFormat(stamp);
    var expected := DateTime(2023, 6, 1, 23, 59, 30);
    assert SecondOfDay(expected) == 86370;
    ClockFarIsInvalid(Rationals([(0, 1), (0, 1), (10, 1)]), "2023:06:02 00:00:10", expected);
  }

  /** Stored fields that decode, with a time of day too far from the
      expected one, are rewritten whatever the date stamp says. */
  lemma ClockFarIsInvalid(gpsTime: TagValue, gpsDate: string, expected: DateTime)
    requires Valid(expected) && GpsClock(gpsTime).Ok? && Parse(gpsDate).Some?
    requires Abs(ClockSeconds(GpsClock(gpsTime).value) - SecondOfDay(expected)) > GpsToleranceSeconds
    ensures GpsInvalid(Some(gpsTime), Some(gpsDate), expected) == Ok(true)
  {
  }

  /** A GPSDateStamp in the date-only form `YYYY:MM:DD` does not match the
      full layout it is read with, and stops the processing. */
  lemma DateOnlyStampExample()
    ensures GpsInvalid(Some(Rationals([(18, 1), (0, 1), (0, 1)])), Some("2023:06:01"),
                       DateTime(2023, 6, 1, 18, 0, 0)) == Err(BadTimestamp("2023:06:01"))
  {
  }

  /** Missing GPS fields are always rewritten. */
  lemma MissingGpsExample(e: DateTime, date: Option<string>)
    requires Valid(e)
    ensures GpsInvalid(None, date, e) == Ok(true)
  {
  }
}

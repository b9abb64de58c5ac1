/** The loaded metadata container: every tag the program touches, keyed by
    its group ("0th", "Exif", "GPS") and its numeric tag id, as the
    container codec hands them over. */
module Exif {
  import opened Outcomes

  /** The tag groups ("0th", "Exif" and "GPS" in the container). */
  datatype Group = Zeroth | ExifGroup | Gps

  datatype TagKey = TagKey(group: Group, id: nat)

  /** A tag value: ASCII text, a list of (numerator, denominator) rationals,
      or a plain integer. */
  datatype TagValue = Text(text: string) | Rationals(values: seq<(int, int)>) | Integer(n: int)

  type Tags = map<TagKey, TagValue>

  // Tag ids of CIPA DC-008-2012.
  const MakeTag := TagKey(Zeroth, 271)
  const ModelTag := TagKey(Zeroth, 272)
  const DateTimeOriginalTag := TagKey(ExifGroup, 36867)
  const DateTimeDigitizedTag := TagKey(ExifGroup, 36868)
  const GpsTimeStampTag := TagKey(Gps, 7)
  const GpsDateStampTag := TagKey(Gps, 29)

  /** `exif_data[group][id].decode(...)`: the text of a tag that must be there. */
  function TextTag(tags: Tags, key: TagKey): (r: Result<string>)
    ensures r.Ok? <==> key in tags && tags[key].Text?
    ensures r.Ok? ==> tags[key] == Text(r.value)
    ensures key !in tags ==> r == Err(MissingTag(key.id))
  {
    if key !in tags then Err(MissingTag(key.id))
    else if tags[key].Text? then Ok(tags[key].text)
    else Err(NotText(key.id))
  }

  /** The text of a tag that may be absent: None when it is absent. */
  function OptionalTextTag(tags: Tags, key: TagKey): (r: Result<Option<string>>)
    ensures r == Ok(None) <==> key !in tags
    ensures r.Ok? && r.value.Some? <==> key in tags && tags[key].Text?
    ensures r.Ok? && r.value.Some? ==> tags[key] == Text(r.value.value)
  {
    if key !in tags then Ok(None)
    else if tags[key].Text? then Ok(Some(tags[key].text))
    else Err(NotText(key.id))
  }

  /** The raw value of a tag that may be absent. */
  function OptionalTag(tags: Tags, key: TagKey): (r: Option<TagValue>)
    ensures r.Some? <==> key in tags
    ensures r.Some? ==> r.value == tags[key]
  {
    if key in tags then Some(tags[key]) else None
  }
}

# fix_wedding_photo_timestamps in Dafny

This project models the photo-timestamp fixer `src/main.py`. For every JPEG
photo in a directory, the fixer does the following:

- It reads the device make and model, the two capture timestamps
  (DateTimeOriginal and DateTimeDigitized) and the two GPS fields
  (GPSTimeStamp and GPSDateStamp) from the photo's Exif metadata.
- It moves both capture timestamps forward one hour unless the device is
  on a list of devices whose clock was right. It works out the UTC instant
  the GPS fields should hold: the corrected capture time, taken as UTC-7,
  plus seven hours.
- It rewrites the GPS fields when they are missing or more than 120
  seconds away from that instant.
- When anything changed, it moves the original photo into an originals
  directory. It then writes a copy carrying the corrected metadata back
  next to where the original was, under a prefixed name.

The modules follow the program's structure:

- `Outcomes`: the failures (each one an exception in the program), plus
  `Result` and `Option`.
- `Calendar`: proleptic Gregorian date and time arithmetic, the way
  Python's `datetime` does it. Instants are numbered by ordinal day and
  second. Adding a `timedelta` rolls over days, months and years, and it
  overflows past year 9999.
- `TimestampText`: the `YYYY:MM:DD HH:MM:SS` layout. This covers
  `strptime` and `strftime` with `%Y:%m:%d %H:%M:%S`, and
  `increase_image_tag_date_by_one_hour`.
- `Exif`: the metadata container. It is a map from (group, tag id) to a
  text, rational-list or integer value.
- `Correction`: the decision part of `process_image_file`. It covers the
  device identity, the shift, the expected GPS instant, the GPS check and
  the rewrite. It is written as pure functions, with the properties
  proved as lemmas.
- `Naming`: POSIX `basename`, `dirname` and `join`, and
  `collect_file_paths` (a loop over the directory listing).
  `parse_int_from_filename` is here too, as are the backup path and the
  prefixed output name.
- `Replacement`: `process_image_file` itself. It has two parts:
  - an imperative correction of the container, proved equal to
    `Correction.Correct`;
  - a `PhotoStore` class whose `files` map (path to photo) is changed by
    `Move`, `CopyFile` and `InsertTags`.

The comment at `src/main.py:17` says the listed devices are the ones whose
time was early, but line 93 shifts every device that is NOT listed. The
model follows the code.

The GPSDateStamp is read with the full timestamp layout at line 114. A date
stamp that does not match it raises there, including one in the standard
date-only form `YYYY:MM:DD`, and nothing catches that or any other error.
In the model such a stamp is an error result
(`Correction.DateOnlyStampExample`).

## Model

| member | source | states |
|---|---|---|
| Calendar.Shift | src/main.py:149 | adding k seconds gives a valid instant exactly k seconds later, or the overflow error; it overflows exactly when the result would pass 9999-12-31 23:59:59, so a shift of less than a day from a year before 9999 never does |
| Calendar.YearFitsIff | src/main.py:149 | a calendar instant is in years 1 to 9999 exactly when its second count is at most that of 9999-12-31 23:59:59 |
| Calendar.LastInstantSeconds | src/main.py:149 | the overflow bound is the second count of 9999-12-31 23:59:59 |
| Calendar.EarlierYearHasHeadroom | src/main.py:149 | an instant before the year 9999 is more than a day from the end of the range |
| Calendar.ShiftIsUnique | src/main.py:149 | any valid instant exactly k seconds later is the result of the shift (days, months and years roll over as the calendar does) |
| Calendar.SecondsInjective | src/main.py:115-116 | two valid instants with the same second count are the same instant, so a zero difference means equal timestamps |
| Calendar.DayRollover | src/main.py:149 | one hour after 23:30 is 00:30 of the next day |
| Calendar.YearRollover | src/main.py:149 | one hour after 2023-12-31 23:00:00 is 2024-01-01 00:00:00 |
| Calendar.LeapYearFebruaryRollover | src/main.py:149 | one hour after 2024-02-28 23:30 is 2024-02-29 00:30 |
| Calendar.LeapDayRollover | src/main.py:149 | one hour after 2024-02-29 23:30 is 2024-03-01 00:30 |
| Calendar.CommonYearFebruaryRollover | src/main.py:149 | one hour after 2023-02-28 23:30 is 2023-03-01 00:30 |
| Calendar.CenturyFebruaryRollover | src/main.py:149 | 2100 is not a leap year: one hour after 2100-02-28 23:30 is 2100-03-01 00:30 |
| Calendar.OverflowAtEndOfRange | src/main.py:149 | one hour after 9999-12-31 23:00:00 overflows |
| TimestampText.Parse | src/main.py:148 | a parsed value is always a real calendar instant in years 1 to 9999 |
| TimestampText.Format | src/main.py:124 | the written text always has the 19 characters of the tag layout; `ParseFormat` shows it reads back as the instant it was written from |
| TimestampText.ParseFormat | src/main.py:148-150 | parsing the formatted text of a valid instant gives the instant back |
| TimestampText.FormatParse | src/main.py:148-150 | a text that parses is the canonical text of its value |
| TimestampText.ParseInjective | src/main.py:148 | two texts that parse to the same instant are the same text |
| TimestampText.IncreaseByOneHour | src/main.py:147-150 | text that does not parse is an error; otherwise the result parses to the instant exactly 3600 s later, or is the overflow error, which happens exactly when that instant is past 9999-12-31 23:59:59 |
| TimestampText.YearEndExample | src/main.py:147-150 | "2023:12:31 23:00:00" becomes "2024:01:01 00:00:00" |
| Exif.TextTag | src/main.py:75-78 | a required tag yields its text; it is a missing-tag error when absent and an error when it is not text |
| Exif.OptionalTag | src/main.py:80-83 | an optional tag yields its value exactly when present |
| Exif.OptionalTextTag | src/main.py:84-87 | absent is None, present text is its text, and present non-text is an error |
| Correction.ExpectedGpsInstant | src/main.py:102 | the expected GPS instant is valid and exactly 7 hours after the local capture time; it overflows exactly when that is past 9999-12-31 23:59:59, so only in year 9999 |
| Correction.ExpectedFor | src/main.py:101-102 | an unparsable DateTimeOriginal is a BadTimestamp error; a parsable one fails only by overflow in year 9999, exactly when 7 hours later is past 9999-12-31 23:59:59; on success the expected instant is 7 hours after its value |
| Correction.GpsClock | src/main.py:106-113 | the GPS time of day is read from the three numerators, and is an error unless they form a time of day |
| Correction.GpsInvalid | src/main.py:103-117 | missing fields are invalid; with both present, the check fails with an error exactly when one of them does not decode; the fields are valid exactly when both time-of-day and date stamp are within 120 s (inclusive) of the expected instant; every error is BadGpsTime or BadTimestamp |
| Correction.Read | src/main.py:75-89 | reading succeeds exactly when make, model and both capture timestamps are present text and the date stamp is absent or text; the fields are those tags, and the identity is "make/model" |
| Correction.Decide | src/main.py:89-117 | succeeds exactly when the timestamps it parses have the layout, neither the shift nor the move to UTC passes 9999-12-31 23:59:59, and the GPS fields can be decoded, and then only fails with BadTimestamp, OutOfRange or BadGpsTime; shift exactly when the device is not listed; shifted timestamps are exactly one hour later and unshifted ones unchanged; the expected instant follows the (shifted) DateTimeOriginal; rewrite exactly when the GPS check says invalid |
| Correction.ShiftedTexts | src/main.py:93-97 | without a shift both texts are kept; with one, both are exactly one hour later, and it succeeds exactly when both parse and neither passes 9999-12-31 23:59:59 |
| Correction.Apply | src/main.py:93-125 | only the four timestamp tags change: the capture tags get the shifted texts when shifting, the GPS tags get the expected time of day and its text when rewriting |
| Correction.Correct | src/main.py:73-128 | succeeds exactly when the tags can be read and the decision succeeds on them; a photo reported as not updated keeps its container exactly; at most the two GPS tags are added |
| Correction.CorrectSucceedsBeforeLastYear | src/main.py:73-128 | a container with readable tags, capture timestamps in the layout before the year 9999, and decodable GPS fields is always corrected without an error |
| Correction.ShiftedIffNotListed | src/main.py:89-98 | an unlisted device has both capture timestamps moved one hour forward and counts as updated; a listed device keeps both |
| Correction.ExpectedFollowsShift | src/main.py:93-102 | the expected GPS instant is the as-read capture time plus one hour for an unlisted device, plus seven hours |
| Correction.GpsRewrittenIffInvalid | src/main.py:103-126 | the GPS tags are rewritten to the expected instant exactly when the check finds them invalid, and kept otherwise; updated is shift or rewrite |
| Correction.OnlyTimestampTagsChange | src/main.py:93-125 | every other tag is left exactly as it was |
| Correction.RewrittenGpsIsValid | src/main.py:115-125 | GPS fields written from an expected instant pass the check against it (both differences are 0 s) |
| Correction.ReadUnshifted | src/main.py:75-87 | reading a container again after an unshifted correction gives the same device and capture timestamps, and the GPS fields as written when they were rewritten |
| Correction.RerunIsNoOpForListedDevice | src/main.py:89-128 | correcting a corrected container of a listed device again changes nothing and reports no update |
| Correction.ExpectedInstantExample | src/main.py:102 | 2023-06-01 11:00:00 local is 18:00:00 UTC |
| Correction.ThreeMinutesOffExample | src/main.py:115-117 | a GPS fix 180 s from the expected instant is invalid |
| Correction.NinetySecondsOffExample | src/main.py:115-117 | a GPS fix 90 s off is valid |
| Correction.ExactToleranceExample | src/main.py:115-117 | a GPS fix exactly 120 s off is valid (strict comparison) |
| Correction.PastMidnightExample | src/main.py:106-117 | a fix 40 s after an expected 23:59:30, taken past midnight, is invalid, because its time of day is put on the expected date |
| Correction.DateOnlyStampExample | src/main.py:114 | a date stamp in the form "2023:06:01" is an error |
| Correction.MissingGpsExample | src/main.py:103-104 | a missing GPSTimeStamp always means a rewrite |
| Naming.BasenameSplits | src/main.py:71 | the base name has no '/', ends the path, and is the whole path exactly when the path has no '/' |
| Naming.BasenameOfJoin | src/main.py:132 | a bare name joined to a directory has that name as its base name |
| Naming.DirnameOfJoin | src/main.py:140 | a bare name joined to a directory that does not end in '/' (or is only slashes) has that directory as its directory part |
| Naming.ExtensionSplits | src/main.py:58 | the extension is the text after the last '.', or the whole name exactly when it has no '.' |
| Naming.SelectedIff | src/main.py:57-60 | a name is selected exactly when it is listed and its extension is one of the accepted ones |
| Naming.CollectFilePaths | src/main.py:55-61 | the result is the directory joined with each selected name, in listing order |
| Naming.ExtensionExamples | src/main.py:58-59 | "IMG_1.jpg" and "archive.tar.jpeg" are photos; "IMG_1.JPG" is not (case matters); a file named just "jpg" is |
| Naming.DecimalRoundTrip | src/main.py:66 | reading the decimal digits of a number gives the number |
| Naming.ParseIntFromFilename | src/main.py:64-66 | there is no number exactly when the base name holds no digit |
| Naming.NumberedName | src/main.py:64-66 | a name "stem, number, rest" with no digit in the stem and no digit right after the number yields that number, whatever the directory |
| Naming.DigitsInName | src/main.py:64-66 | a name "stem, run of digits, rest" with no digit in the stem and none right after the run yields the run's decimal value, leading zeros included |
| Naming.LeadingZerosExample | src/main.py:64-66 | "/photos/IMG_007.jpg" yields 7 |
| Naming.NoDigitExample | src/main.py:64-66 | "/photos/cover.jpg" yields no number |
| Naming.BackupKeepsName | src/main.py:132 | the original keeps its file name in the originals directory |
| Naming.OutputName | src/main.py:138-140 | the output name starts with the prefix and ends with the file name; it is the file name when that already starts with the prefix, and prefix + name otherwise |
| Naming.OutputNameIdempotent | src/main.py:138-140 | naming an already-named copy again gives the same name: no double prefix |
| Naming.PrefixedOnceExample | src/main.py:138-140 | "IMG_1.jpg" becomes "metafix_IMG_1.jpg", and "metafix_IMG_1.jpg" stays as it is |
| Naming.OutputHasOutputName | src/main.py:140 | for a prefix without '/', the copy's base name is the output name |
| Naming.OutputBesideOriginal | src/main.py:140 | for a prefix without '/', the copy is in the directory the photo was in |
| Replacement.CorrectTags | src/main.py:73-126 | the step-by-step correction of the loaded container gives exactly the result of `Correction.Correct` |
| Replacement.PhotoStore.Move | src/main.py:135 | the photo leaves the source and is at the destination, replacing what was there; nothing else changes |
| Replacement.PhotoStore.CopyFile | src/main.py:141 | copying onto the same path is an error that changes nothing; otherwise the destination gets the source's contents |
| Replacement.PhotoStore.InsertTags | src/main.py:142 | the photo's metadata is replaced and its image data kept |
| Replacement.PhotoStore.ReplaceWithCorrected | src/main.py:131-144 | the original is at the backup path; the copy at the output path has the original image data and the corrected metadata; the source path is gone unless one of them is it; if the backup and output paths coincide, the copy fails after the move |
| Replacement.PhotoStore.ProcessImageFile | src/main.py:69-144 | a missing photo or a failed correction is an error that touches no file; a photo needing no change is reported as not updated with every file as it was; otherwise the file changes are those of the replacement, and the photo is reported as updated |

## Left out

- The Exif codec (`piexif.load`, `piexif.dump`, and the splicing inside `piexif.insert`) is left out. A photo is its image data plus an already-decoded container, and insert replaces the container.
- UTF-8 decoding and encoding is left out. A tag is text or it is not (`NotText`).
- The container is modelled as one flat map. The KeyError for a whole missing IFD group is not modelled.
- `os.path.realpath` and `os.path.abspath` are left out: they depend on the working directory and symbolic links. Paths are taken as already canonical. So `CollectFilePaths` returns `join(src_dir, name)` without normalisation. `CopyFile` detects the same file by equal paths, not by inode.
- `os.makedirs` is left out, because directories are not modelled. A directory listing is a parameter in listing order, and a directory whose name ends in ".jpg" is not told apart from a file.
- `shutil.move` is modelled only as a rename. Its cross-device copy fallback and its move-into-directory behaviour are left out.
- `main`, `parse_args` and `print` are left out. This includes the use of `time.time()` in the originals directory name (that directory is a parameter) and the sort of the photo paths by `parse_int_from_filename`.
- `Naming.ParseIntFromFilename`: where the source fails on a name without digits (AttributeError on `None.group()`), the model returns None. `\d` is taken to mean the ASCII digits only; Unicode decimal digits are not matched.
- `TimestampText.Parse`: `strptime`'s leniency is left out. The model accepts only the canonical zero-padded 19-character text. `strptime` also accepts single-digit month, day, hour, minute and second fields, a day written as a space and a digit, any run of whitespace in place of the one space, and non-ASCII decimal digits; the year must still have four digits and nothing may come before or after the text.
- `TimestampText.Format` always pads the year to four digits. For years below 1000, Python's `strftime` output depends on the platform's C library.
- Floating point in `total_seconds()` is left out. Differences are whole seconds, because every field is an integer.
- The program stops at the first error of any photo. This is modelled as the `Err` result of the photo being processed; the loop over photos is not modelled.

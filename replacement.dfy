/** `process_image_file`: correct the metadata of one photo and, when
    anything changed, move the original into the originals directory and
    write a corrected copy next to where it was. Files are a map from path
    to photo; a photo is its image data and its metadata container. */
module Replacement {
  import opened Outcomes
  import opened Calendar
  import opened TimestampText
  import opened Exif
  import opened Correction
  import opened Naming

  /** The contents of one photo file: everything but the metadata, and the
      metadata container. */
  datatype Photo = Photo(image: seq<bv8>, tags: Tags)

  /** Lines 73 to 126 on the loaded container, step by step: read the
      tags (lines 75 to 87), shift both capture timestamps unless the device is listed,
      rewrite the GPS fields when they fail the check, and note whether
      anything was written. */
  method CorrectTags(tags: Tags) returns (r: Result<Corrected>)
    ensures r == Correct(tags, TargetDevicesOffByOneHour)
  {
    var exif := tags;
    var reading :- Read(exif);
    var original, digitized := reading.original, reading.digitized;

    var updated := false;
    if reading.device !in TargetDevicesOffByOneHour {
      original :- IncreaseByOneHour(original);
      digitized :- IncreaseByOneHour(digitized);
      exif := exif[DateTimeOriginalTag := Text(original)][DateTimeDigitizedTag := Text(digitized)];
      updated := true;
    }

    ghost var shifted := exif;
    var expected :- ExpectedFor(original);
    var invalid :- GpsInvalid(reading.gpsTime, reading.gpsDate, expected);
    ghost var d := Decision(reading.device !in TargetDevicesOffByOneHour, original, digitized, expected, invalid);
    assert Decide(reading, TargetDevicesOffByOneHour) == Ok(d);
    ApplyInTwoSteps(tags, d, shifted);
    if invalid {
      exif := exif[GpsTimeStampTag := GpsTimeValue(expected)][GpsDateStampTag := Text(Format(expected))];
      updated := true;
    }
    r := Ok(Corrected(exif, updated));
  }

  /** The container after the shift, then after the GPS rewrite, is the
      container the decision describes. */
  lemma ApplyInTwoSteps(tags: Tags, d: Decision, shifted: Tags)
    requires DateTimeOriginalTag in tags && DateTimeDigitizedTag in tags && Valid(d.expected)
    requires shifted == if d.shift then tags[DateTimeOriginalTag := Text(d.original)]
                                           [DateTimeDigitizedTag := Text(d.digitized)]
                        else tags
    ensures Apply(tags, d) == if d.rewriteGps then shifted[GpsTimeStampTag := GpsTimeValue(d.expected)]
                                                          [GpsDateStampTag := Text(Format(d.expected))]
                              else shifted
  {
  }

  /** The files the program can see, by path. */
  class PhotoStore {
    var files: map<string, Photo>

    constructor(files: map<string, Photo>)
      ensures this.files == files
    {
      this.files := files;
    }

    /** `shutil.move`: the photo leaves `src` and is at `dst`, replacing
        whatever was there; moving a file onto itself leaves it alone. */
    method Move(src: string, dst: string) returns (r: Result<()>)
      modifies this
      ensures src !in old(files) ==> r == Err(MissingFile(src)) && files == old(files)
      ensures src in old(files) ==> r == Ok(()) && files == (old(files) - {src})[dst := old(files)[src]]
    {
      if src !in files {
        return Err(MissingFile(src));
      }
      files := (files - {src})[dst := files[src]];
      r := Ok(());
    }

    /** `shutil.copyfile`: `dst` gets the contents of `src`; copying a file
        onto itself is an error. */
    method CopyFile(src: string, dst: string) returns (r: Result<()>)
      modifies this
      ensures src == dst ==> r == Err(SameFile(dst)) && files == old(files)
      ensures src != dst && src !in old(files) ==> r == Err(MissingFile(src)) && files == old(files)
      ensures src != dst && src in old(files) ==> r == Ok(()) && files == old(files)[dst := old(files)[src]]
    {
      if src == dst {
        return Err(SameFile(dst));
      }
      if src !in files {
        return Err(MissingFile(src));
      }
      files := files[dst := files[src]];
      r := Ok(());
    }

    /** `piexif.insert`: the metadata of the photo at `path` is replaced,
        its image data kept. */
    method InsertTags(tags: Tags, path: string) returns (r: Result<()>)
      modifies this
      ensures path !in old(files) ==> r == Err(MissingFile(path)) && files == old(files)
      ensures path in old(files) ==> r == Ok(()) && files == old(files)[path := Photo(old(files)[path].image, tags)]
    {
      if path !in files {
        return Err(MissingFile(path));
      }
      files := files[path := Photo(files[path].image, tags)];
      r := Ok(());
    }

    /** `process_image_file`. A photo that needs no change is left where it
        is and reported as not updated, without touching any file. Otherwise
        the original moves to the originals directory under its own name and
        a copy carrying the corrected metadata is written next to where it
        was, under the output name; the result says it was updated. */
    method ProcessImageFile(imagePath: string, originalsDir: string, copyPrefix: string) returns (r: Result<bool>)
      modifies this
      ensures imagePath !in old(files) ==> r == Err(MissingFile(imagePath)) && files == old(files)
      ensures imagePath in old(files) ==>
                var photo := old(files)[imagePath];
                var c := Correct(photo.tags, TargetDevicesOffByOneHour);
                var stored := BackupPath(originalsDir, Basename(imagePath));
                var output := OutputPath(imagePath, copyPrefix);
                && (c.Err? ==> r == Err(c.error) && files == old(files))
                && (c.Ok? && !c.value.updated ==> r == Ok(false) && files == old(files))
                && (c.Ok? && c.value.updated && stored == output ==>
                      && r == Err(SameFile(output))
                      && files == (old(files) - {imagePath})[stored := photo])
                && (c.Ok? && c.value.updated && stored != output ==>
                      && r == Ok(true)
                      && files == (old(files) - {imagePath})[stored := photo][output := Photo(photo.image, c.value.tags)])
    {
      if imagePath !in files {
        return Err(MissingFile(imagePath));
      }
      var corrected :- CorrectTags(files[imagePath].tags);
      if !corrected.updated {
        return Ok(false);
      }

      r := ReplaceWithCorrected(imagePath, originalsDir, copyPrefix, corrected.tags);
    }

    /** Lines 131 to 144: move the original photo into the originals
        directory, copy it back beside where it was under the output name,
        and put the corrected metadata into the copy. */
    method ReplaceWithCorrected(imagePath: string, originalsDir: string, copyPrefix: string, tags: Tags)
        returns (r: Result<bool>)
      requires imagePath in files
      modifies this
      ensures var photo := old(files)[imagePath];
              var stored := BackupPath(originalsDir, Basename(imagePath));
              var output := OutputPath(imagePath, copyPrefix);
              && (stored == output ==>
                    && r == Err(SameFile(output))
                    && files == (old(files) - {imagePath})[stored := photo])
              && (stored != output ==>
                    && r == Ok(true)
                    && files == (old(files) - {imagePath})[stored := photo][output := Photo(photo.image, tags)])
    {
      var filename := Basename(imagePath);
      var stored := BackupPath(originalsDir, filename);
      var moved := Move(imagePath, stored);
      assert moved == Ok(());

      var prefix := copyPrefix;
      if StartsWith(filename, prefix) {
        prefix := "";
      }
      var output := Join(Dirname(imagePath), prefix + filename);
      assert prefix + filename == OutputName(filename, copyPrefix);
      var copied :- CopyFile(stored, output);
      var inserted := InsertTags(tags, output);
      assert inserted == Ok(());
      r := Ok(true);
    }
  }
}

/** File names and paths: POSIX path joining and splitting, the choice of
    photo files in a directory by extension, the number in a photo's file
    name that orders the photos, and where a corrected photo and its
    original end up. */
module Naming {
  import opened Outcomes
  import opened TimestampText

  /** The extensions a photo file may have, compared case-sensitively. */
  const ImageExtensions: seq<string> := ["jpeg", "jpg"]

  predicate StartsWith(s: string, prefix: string) {
    |prefix| <= |s| && s[..|prefix|] == prefix
  }

  predicate EndsWith(s: string, suffix: string) {
    |suffix| <= |s| && s[|s| - |suffix|..] == suffix
  }

  /** `str.rfind`: the index of the last `c` in `s`, or -1 when there is none. */
  function LastIndexOf(s: string, c: char): (r: int)
    ensures -1 <= r < |s|
    ensures r >= 0 ==> s[r] == c
    ensures forall j | r < j < |s| :: s[j] != c
  {
    if |s| == 0 then -1
    else if s[|s| - 1] == c then |s| - 1
    else LastIndexOf(s[..|s| - 1], c)
  }

  /** The last `c` of `s` is at k: nothing else can be reported. */
  lemma LastIndexOfIs(s: string, c: char, k: int)
    requires -1 <= k < |s|
    requires k >= 0 ==> s[k] == c
    requires forall j | k < j < |s| :: s[j] != c
    ensures LastIndexOf(s, c) == k
  {
  }

  /** `posixpath.basename`: everything after the last '/'. */
  function Basename(p: string): string {
    p[LastIndexOf(p, '/') + 1..]
  }

  /** The base name is the part of the path after its last '/': it holds no
      '/', ends the path, and is either all of the path or follows a '/'. */
  lemma BasenameSplits(p: string)
    ensures '/' !in Basename(p)
    ensures EndsWith(p, Basename(p))
    ensures '/' !in p <==> Basename(p) == p
    ensures |Basename(p)| < |p| ==> p[|p| - |Basename(p)| - 1] == '/'
  {
  }

  predicate AllSlashes(s: string) {
    forall i | 0 <= i < |s| :: s[i] == '/'
  }

  /** `str.rstrip('/')`. */
  function RStripSlashes(s: string): (r: string)
    ensures |r| <= |s| && r == s[..|r|]
    ensures r == "" || r[|r| - 1] != '/'
    ensures AllSlashes(s[|r|..])
  {
    if |s| > 0 && s[|s| - 1] == '/' then RStripSlashes(s[..|s| - 1]) else s
  }

  /** `posixpath.dirname`: everything up to the last '/', with the trailing
      slashes dropped unless there is nothing but slashes. */
  function Dirname(p: string): string {
    var head := p[..LastIndexOf(p, '/') + 1];
    if head != "" && !AllSlashes(head) then RStripSlashes(head) else head
  }

  /** `posixpath.join` of two components: an absolute second component
      replaces the first, otherwise they are joined with exactly one added
      '/' unless the first is empty or already ends with one. */
  function Join(a: string, b: string): (r: string)
    ensures |b| > 0 && b[0] == '/' ==> r == b
  {
    if |b| > 0 && b[0] == '/' then b
    else if a == "" || a[|a| - 1] == '/' then a + b
    else a + "/" + b
  }

  /** What a join puts before a relative second component. */
  function JoinHead(a: string): string {
    if a == "" || a[|a| - 1] == '/' then a else a + "/"
  }

  /** A bare name joined to a directory follows the directory and one '/',
      and that '/' is the last one. */
  lemma JoinSplits(a: string, b: string)
    requires '/' !in b
    ensures Join(a, b) == JoinHead(a) + b
    ensures LastIndexOf(Join(a, b), '/') == |JoinHead(a)| - 1
  {
    var head := JoinHead(a);
    var p := head + b;
    assert forall j | |head| <= j < |p| :: p[j] == b[j - |head|];
    LastIndexOfIs(p, '/', |head| - 1);
  }

  /** Joining a bare name to a directory and taking the base name gives the
      name back. */
  lemma BasenameOfJoin(a: string, b: string)
    requires '/' !in b
    ensures Basename(Join(a, b)) == b
  {
    JoinSplits(a, b);
    var p := JoinHead(a) + b;
    assert p[|JoinHead(a)|..] == b;
  }

  /** Joining a bare name to a directory and taking the directory part gives
      the directory back, unless it ends in a '/' that dirname strips. */
  lemma DirnameOfJoin(a: string, b: string)
    requires '/' !in b
    requires a == "" || a[|a| - 1] != '/' || AllSlashes(a)
    ensures Dirname(Join(a, b)) == a
  {
    JoinSplits(a, b);
    var head := JoinHead(a);
    assert (head + b)[..|head|] == head;
    if head != a {
      assert head[|a| - 1] != '/';
      assert head[..|head| - 1] == a;
      assert RStripSlashes(head) == RStripSlashes(a) == a;
    }
  }

  /** `filename.split(".")[-1]`: the text after the last '.', or the whole
      name when it has none. */
  function Extension(name: string): string {
    name[LastIndexOf(name, '.') + 1..]
  }

  /** The extension is the part of the name after its last '.': it holds no
      '.', ends the name, and is either all of the name or follows a '.'. */
  lemma ExtensionSplits(name: string)
    ensures '.' !in Extension(name)
    ensures EndsWith(name, Extension(name))
    ensures '.' !in name <==> Extension(name) == name
    ensures |Extension(name)| < |name| ==> name[|name| - |Extension(name)| - 1] == '.'
  {
  }

  predicate IsImageFile(name: string, extensions: seq<string>) {
    Extension(name) in extensions
  }

  /** The entries of a directory listing with one of the extensions, in
      listing order. */
  function Selected(listing: seq<string>, extensions: seq<string>): (r: seq<string>)
    ensures |r| <= |listing|
  {
    if listing == [] then []
    else
      var last := listing[|listing| - 1];
      Selected(listing[..|listing| - 1], extensions) + (if IsImageFile(last, extensions) then [last] else [])
  }

  /** Every entry with one of the extensions is selected, and nothing else. */
  lemma {:induction false} SelectedIff(listing: seq<string>, extensions: seq<string>, name: string)
    ensures name in Selected(listing, extensions) <==> name in listing && IsImageFile(name, extensions)
  {
    if listing != [] {
      var n := |listing| - 1;
      SelectedStep(listing, n, extensions);
      assert listing[..n + 1] == listing;
      SelectedIff(listing[..n], extensions, name);
      assert name in listing <==> name in listing[..n] || name == listing[n];
    }
  }

  lemma SelectedStep(listing: seq<string>, n: nat, extensions: seq<string>)
    requires n < |listing|
    ensures Selected(listing[..n + 1], extensions)
            == Selected(listing[..n], extensions) + (if IsImageFile(listing[n], extensions) then [listing[n]] else [])
  {
    assert listing[..n + 1][..n] == listing[..n];
  }

  /** `collect_file_paths`: the paths of the listed entries of `srcDir` whose
      extension is one of `extensions`, in listing order. */
  method CollectFilePaths(srcDir: string, listing: seq<string>, extensions: seq<string>)
      returns (paths: seq<string>)
    ensures |paths| == |Selected(listing, extensions)|
    ensures forall i | 0 <= i < |paths| :: paths[i] == Join(srcDir, Selected(listing, extensions)[i])
  {
    paths := [];
    for n := 0 to |listing|
      invariant |paths| == |Selected(listing[..n], extensions)|
      invariant forall i | 0 <= i < |paths| :: paths[i] == Join(srcDir, Selected(listing[..n], extensions)[i])
    {
      ghost var before := Selected(listing[..n], extensions);
      SelectedStep(listing, n, extensions);
      var filename := listing[n];
      if Extension(filename) in extensions {
        paths := paths + [Join(srcDir, filename)];
        assert Selected(listing[..n + 1], extensions) == before + [filename];
      } else {
        assert Selected(listing[..n + 1], extensions) == before;
      }
    }
    assert listing[..|listing|] == listing;
  }

  // ---------------------------------------------------------------------
  // The number in a file name

  /** Where the first run of ASCII digits starts, or |s| when there is none. */
  function DigitRunStart(s: string): (r: nat)
    ensures r <= |s|
    ensures forall j | 0 <= j < r :: !IsDigit(s[j])
    ensures r < |s| ==> IsDigit(s[r])
  {
    if |s| == 0 || IsDigit(s[0]) then 0 else 1 + DigitRunStart(s[1..])
  }

  /** How many digits `s` starts with. */
  function DigitRunLength(s: string): (r: nat)
    ensures r <= |s|
    ensures forall j | 0 <= j < r :: IsDigit(s[j])
    ensures r < |s| ==> !IsDigit(s[r])
  {
    if |s| == 0 || !IsDigit(s[0]) then 0 else 1 + DigitRunLength(s[1..])
  }

  predicate AllDigits(s: string) {
    forall i | 0 <= i < |s| :: IsDigit(s[i])
  }

  /** `int()` of a string of decimal digits. */
  function DecimalValue(s: string): (r: nat)
    requires AllDigits(s)
  {
    if s == [] then 0 else 10 * DecimalValue(s[..|s| - 1]) + DigitValue(s[|s| - 1])
  }

  /** `str()` of a natural number: its decimal digits, without leading zeros. */
  function DecimalText(n: nat): (s: string)
    ensures |s| > 0 && AllDigits(s)
    ensures |s| > 1 ==> s[0] != '0'
  {
    if n < 10 then [Digit(n)] else DecimalText(n / 10) + [Digit(n % 10)]
  }

  /** Reading back the digits of a number gives the number. */
  lemma {:induction false} DecimalRoundTrip(n: nat)
    ensures DecimalValue(DecimalText(n)) == n
  {
    var s := DecimalText(n);
    if n >= 10 {
      DecimalRoundTrip(n / 10);
      assert s[..|s| - 1] == DecimalText(n / 10);
    }
  }

  /** `parse_int_from_filename`: the value of the first run of digits in the
      base name; None where the search finds no digit (the source then
      fails on `.group()` of no match). */
  function ParseIntFromFilename(path: string): (r: Option<nat>)
    ensures r.None? <==> forall i | 0 <= i < |Basename(path)| :: !IsDigit(Basename(path)[i])
  {
    var name := Basename(path);
    var start := DigitRunStart(name);
    if start == |name| then None
    else
      var run := name[start..][..DigitRunLength(name[start..])];
      Some(DecimalValue(run))
  }

  /** A photo named `stem`, then a number, then `rest` (a name without
      digits before the number, and not continuing it with a digit), is
      ordered by that number. */
  lemma NumberedName(dir: string, stem: string, n: nat, rest: string)
    requires forall i | 0 <= i < |stem| :: !IsDigit(stem[i])
    requires '/' !in stem && '/' !in rest
    requires rest == "" || !IsDigit(rest[0])
    ensures ParseIntFromFilename(Join(dir, stem + DecimalText(n) + rest)) == Some(n)
  {
    DigitsInName(dir, stem, DecimalText(n), rest);
    DecimalRoundTrip(n);
  }

  /** The number read from a name made of a digit-free `stem`, a run of
      `digits` and a `rest` that does not continue the run: the run's
      value, leading zeros included. */
  lemma DigitsInName(dir: string, stem: string, digits: string, rest: string)
    requires forall i | 0 <= i < |stem| :: !IsDigit(stem[i])
    requires |digits| > 0 && AllDigits(digits)
    requires '/' !in stem && '/' !in rest
    requires rest == "" || !IsDigit(rest[0])
    ensures ParseIntFromFilename(Join(dir, stem + digits + rest)) == Some(DecimalValue(digits))
  {
    var name := stem + digits + rest;
    NoSlashInParts(stem, digits, rest);
    BasenameOfJoin(dir, name);
    RunOfParts(stem, digits, rest);
  }

  lemma NoSlashInParts(stem: string, digits: string, rest: string)
    requires AllDigits(digits) && '/' !in stem && '/' !in rest
    ensures '/' !in stem + digits + rest
  {
    var name := stem + digits + rest;
    assert forall j | 0 <= j < |name| :: name[j] == '/' ==> j >= |stem| + |digits| && rest[j - |stem| - |digits|] == '/';
  }

  /** The first run of digits in `stem + digits + rest` is `digits`. */
  lemma RunOfParts(stem: string, digits: string, rest: string)
    requires forall i | 0 <= i < |stem| :: !IsDigit(stem[i])
    requires |digits| > 0 && AllDigits(digits)
    requires rest == "" || !IsDigit(rest[0])
    ensures var name := stem + digits + rest;
            && DigitRunStart(name) == |stem|
            && name[|stem|..][..DigitRunLength(name[|stem|..])] == digits
  {
    var tail := digits + rest;
    var name := stem + tail;
    assert stem + digits + rest == name;
    DigitRunStartIs(name, |stem|);
    assert name[|stem|..] == tail;
    DigitRunLengthIs(tail, |digits|);
    assert tail[..|digits|] == digits;
  }

  /** The first digit of `s` is at k: nothing else can be reported. */
  lemma DigitRunStartIs(s: string, k: nat)
    requires k <= |s|
    requires forall j | 0 <= j < k :: !IsDigit(s[j])
    requires k < |s| ==> IsDigit(s[k])
    ensures DigitRunStart(s) == k
  {
  }

  /** `s` starts with exactly k digits: nothing else can be reported. */
  lemma DigitRunLengthIs(s: string, k: nat)
    requires k <= |s|
    requires forall j | 0 <= j < k :: IsDigit(s[j])
    requires k < |s| ==> !IsDigit(s[k])
    ensures DigitRunLength(s) == k
  {
  }

  // ---------------------------------------------------------------------
  // Where a corrected photo goes

  /** The original is moved into the originals directory under its own name. */
  function BackupPath(originalsDir: string, filename: string): string {
    Join(originalsDir, filename)
  }

  /** The moved original keeps its file name. */
  lemma BackupKeepsName(originalsDir: string, imagePath: string)
    ensures Basename(BackupPath(originalsDir, Basename(imagePath))) == Basename(imagePath)
  {
    BasenameSplits(imagePath);
    BasenameOfJoin(originalsDir, Basename(imagePath));
  }

  /** The name of the corrected copy: the prefix is added unless the name
      already starts with it. */
  function OutputName(filename: string, prefix: string): (r: string)
    ensures StartsWith(r, prefix)
    ensures EndsWith(r, filename)
    ensures StartsWith(filename, prefix) ==> r == filename
    ensures !StartsWith(filename, prefix) ==> r == prefix + filename
  {
    if StartsWith(filename, prefix) then filename
    else
      var r := prefix + filename;
      assert r[..|prefix|] == prefix && r[|r| - |filename|..] == filename;
      r
  }

  /** Correcting a corrected copy again does not add a second prefix. */
  lemma OutputNameIdempotent(filename: string, prefix: string)
    ensures OutputName(OutputName(filename, prefix), prefix) == OutputName(filename, prefix)
  {
  }

  /** The path of the corrected copy: next to the original, under the
      output name. */
  function OutputPath(imagePath: string, prefix: string): string {
    Join(Dirname(imagePath), OutputName(Basename(imagePath), prefix))
  }

  /** The output name of a name without '/' has none either, as long as
      the prefix has none. */
  lemma OutputNameIsBare(imagePath: string, prefix: string)
    requires '/' !in prefix
    ensures '/' !in OutputName(Basename(imagePath), prefix)
  {
    var name := OutputName(Basename(imagePath), prefix);
    BasenameSplits(imagePath);
    if !StartsWith(Basename(imagePath), prefix) {
      assert forall j | |prefix| <= j < |name| :: name[j] == Basename(imagePath)[j - |prefix|];
    }
  }

  /** The corrected copy carries the output name. */
  lemma OutputHasOutputName(imagePath: string, prefix: string)
    requires '/' !in prefix
    ensures Basename(OutputPath(imagePath, prefix)) == OutputName(Basename(imagePath), prefix)
  {
    OutputNameIsBare(imagePath, prefix);
    BasenameOfJoin(Dirname(imagePath), OutputName(Basename(imagePath), prefix));
  }

  /** The corrected copy is written into the directory the photo was in. */
  lemma OutputBesideOriginal(imagePath: string, prefix: string)
    requires '/' !in prefix
    ensures Dirname(OutputPath(imagePath, prefix)) == Dirname(imagePath)
  {
    OutputNameIsBare(imagePath, prefix);
    DirnameShape(imagePath);
    DirnameOfJoin(Dirname(imagePath), OutputName(Basename(imagePath), prefix));
  }

  /** A directory part never ends in a '/' unless it is nothing but slashes. */
  lemma DirnameShape(p: string)
    ensures var d := Dirname(p); d == "" || d[|d| - 1] != '/' || AllSlashes(d)
  {
  }

  // ---------------------------------------------------------------------
  // Examples

  lemma PrefixedOnceExample()
    ensures OutputName("IMG_1.jpg", "metafix_") == "metafix_IMG_1.jpg"
    ensures OutputName("metafix_IMG_1.jpg", "metafix_") == "metafix_IMG_1.jpg"
  {
    assert "IMG_1.jpg"[..8][0] != "metafix_"[0];
    assert "metafix_IMG_1.jpg"[..8] == "metafix_";
  }

  lemma ExtensionExamples()
    ensures IsImageFile("IMG_1.jpg", ImageExtensions)
    ensures IsImageFile("archive.tar.jpeg", ImageExtensions)
    ensures !IsImageFile("IMG_1.JPG", ImageExtensions)
    ensures IsImageFile("jpg", ImageExtensions)
  {
    LastIndexOfIs("IMG_1.jpg", '.', 5);
    assert "IMG_1.jpg"[6..] == "jpg";
    LastIndexOfIs("archive.tar.jpeg", '.', 11);
    assert "archive.tar.jpeg"[12..] == "jpeg";
    LastIndexOfIs("IMG_1.JPG", '.', 5);
    assert "IMG_1.JPG"[6..] == "JPG";
    LastIndexOfIs("jpg", '.', -1);
    assert "jpg"[0..] == "jpg";
  }

  lemma LeadingZerosExample()
    ensures ParseIntFromFilename(Join("/photos", "IMG_007.jpg")) == Some(7)
  {
    DigitsInName("/photos", "IMG_", "007", ".jpg");
    ZeroPaddedName();
    LeadingZerosValue();
  }

  lemma ZeroPaddedName()
    ensures "IMG_" + "007" + ".jpg" == "IMG_007.jpg"
  {
  }

  /** Leading zeros add nothing to the value. */
  lemma LeadingZerosValue()
    ensures DecimalValue("007") == 7
  {
    assert "007"[..2] == "00" && "00"[..1] == "0" && "0"[..0] == "";
  }

  lemma NoDigitExample()
    ensures ParseIntFromFilename("/photos/cover.jpg") == None
  {
    assert Join("/photos", "cover.jpg") == "/photos/cover.jpg";
    BasenameOfJoin("/photos", "cover.jpg");
    DigitRunStartIs("cover.jpg", 9);
  }
}

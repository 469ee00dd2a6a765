/** The upload filename filter: a file is offered to the image loader only
    when its name ends with one of a fixed list of raster extensions. */
module ImageFilter {
  import opened Strings

  /** The accepted extensions, in the source's order. Each appears in an
      all-lowercase and an all-uppercase form and in no other spelling. */
  const ImgExtensions: seq<string> :=
    [".jpg", ".JPG", ".jpeg", ".JPEG",
     ".png", ".PNG", ".ppm", ".PPM", ".bmp", ".BMP"]

  /** `any(filename.endswith(e) for e in exts)`: scans `exts` in order and
      stops at the first extension that ends `filename`. */
  function AnyEndsWith(filename: string, exts: seq<string>): (r: bool)
    ensures r <==> exists e :: e in exts && EndsWith(filename, e)
  {
    if |exts| == 0 then false
    else if EndsWith(filename, exts[0]) then
      assert exts[0] in exts;
      true
    else
      assert forall e :: e in exts <==> e == exts[0] || e in exts[1..];
      AnyEndsWith(filename, exts[1..])
  }

  /** Whether an uploaded file name carries one of the accepted extensions.
      Total: every string, the empty one included, gets an answer. */
  function IsImageFile(filename: string): (r: bool)
    ensures r <==> exists e :: e in ImgExtensions && EndsWith(filename, e)
  {
    AnyEndsWith(filename, ImgExtensions)
  }

  predicate IsLowerLetter(c: char) { 'a' <= c <= 'z' }

  predicate IsUpperLetter(c: char) { 'A' <= c <= 'Z' }

  /** The last three characters of `s` are all lowercase letters or all
      uppercase letters. */
  predicate SingleCaseTail(s: string)
  {
    var n := |s|;
    && n >= 3
    && ((IsLowerLetter(s[n - 3]) && IsLowerLetter(s[n - 2]) && IsLowerLetter(s[n - 1]))
        || (IsUpperLetter(s[n - 3]) && IsUpperLetter(s[n - 2]) && IsUpperLetter(s[n - 1])))
  }

  /** The letters a listed extension can end with. */
  predicate IsExtensionFinal(c: char)
  {
    c == 'g' || c == 'G' || c == 'm' || c == 'M' || c == 'p' || c == 'P'
  }

  /** The fourth character from the end of `s` is the dot of a
      four-character extension, or the `j` of `.jpeg` in the same case as
      the last letter. */
  predicate ConsistentFourthFromEnd(s: string)
    requires |s| >= 4
  {
    var c, last := s[|s| - 4], s[|s| - 1];
    c == '.' || (c == 'j' && IsLowerLetter(last)) || (c == 'J' && IsUpperLetter(last))
  }

  /** Every listed extension has four or five characters, ends in three
      letters of one case, and ends in one of the letters g, m or p. */
  lemma ExtensionShape(e: string)
    requires e in ImgExtensions
    ensures 4 <= |e| <= 5
    ensures SingleCaseTail(e)
    ensures IsExtensionFinal(e[|e| - 1])
    ensures ConsistentFourthFromEnd(e)
  {
  }

  /** The filter accepts exactly the names that are some stem (possibly
      empty) followed by a listed extension. */
  lemma IsImageFileIffStemPlusExtension(filename: string)
    ensures IsImageFile(filename) <==>
            exists e :: e in ImgExtensions && exists stem :: filename == stem + e
  {
    forall e | e in ImgExtensions
      ensures EndsWith(filename, e) <==> exists stem :: filename == stem + e
    {
      EndsWithIffConcatenation(filename, e);
    }
  }

  /** Every stem followed by a listed extension is accepted; with the empty
      stem this covers the bare extension itself. */
  lemma AcceptsStemPlusExtension(stem: string, e: string)
    requires e in ImgExtensions
    ensures IsImageFile(stem + e)
  {
    EndsWithOwnSuffix(stem, e);
  }

  /** An accepted name has at least four characters, its last three are
      letters of a single case, and its last one is g, m or p (in either
      case). Its fourth character from the end is a dot, or a `j` in the
      same case as the last letter. Together these rule out mixed case in
      the last four characters, such as `.JpG`, `.Png` or `.Jpeg`. */
  lemma AcceptedNameShape(filename: string)
    requires IsImageFile(filename)
    ensures |filename| >= 4
    ensures SingleCaseTail(filename)
    ensures IsExtensionFinal(filename[|filename| - 1])
    ensures ConsistentFourthFromEnd(filename)
  {
    var e :| e in ImgExtensions && EndsWith(filename, e);
    ExtensionShape(e);
    var n, m := |filename|, |e|;
    assert filename[n - m..] == e;
    assert filename[n - 1] == e[m - 1];
    assert filename[n - 2] == e[m - 2];
    assert filename[n - 3] == e[m - 3];
    assert filename[n - 4] == e[m - 4];
  }

  /** Names shorter than the shortest listed extension, the empty name
      among them, are rejected. */
  lemma RejectsShortNames(filename: string)
    requires |filename| < 4
    ensures !IsImageFile(filename)
  {
    if IsImageFile(filename) {
      AcceptedNameShape(filename);
    }
  }

  /** Only the end of the name matters: two names that agree on their last
      five characters (the length of the longest extension) get the same
      answer, whatever precedes them. */
  lemma OnlyFinalCharactersMatter(f: string, g: string)
    requires |f| >= 5 && |g| >= 5
    requires f[|f| - 5..] == g[|g| - 5..]
    ensures IsImageFile(f) == IsImageFile(g)
  {
    if IsImageFile(f) {
      var e :| e in ImgExtensions && EndsWith(f, e);
      ExtensionShape(e);
      EndsWithDependsOnTail(f, g, 5, e);
    }
    if IsImageFile(g) {
      var e :| e in ImgExtensions && EndsWith(g, e);
      ExtensionShape(e);
      EndsWithDependsOnTail(f, g, 5, e);
    }
  }

  /** A name whose last character is not g, m or p (in either case), the
      empty name among them, is rejected: no listed extension ends it. */
  lemma RejectsOtherFinalCharacter(filename: string)
    requires |filename| == 0 || !IsExtensionFinal(filename[|filename| - 1])
    ensures !IsImageFile(filename)
  {
    if IsImageFile(filename) {
      AcceptedNameShape(filename);
    }
  }

  /** Putting anything in front of an accepted name, such as a directory,
      keeps it accepted. */
  lemma PrependingKeepsAcceptance(prefix: string, filename: string)
    requires IsImageFile(filename)
    ensures IsImageFile(prefix + filename)
  {
  }

  /** Examples of acceptance: both listed spellings of an extension, a
      longer extension, and a bare extension with an empty stem. */
  lemma AcceptedExamples()
    ensures IsImageFile("x.jpg") && IsImageFile("x.JPG")
    ensures IsImageFile("photo.jpeg") && IsImageFile(".jpg")
  {
    assert EndsWith("x.jpg", ".jpg") && ".jpg" in ImgExtensions;
    assert EndsWith("x.JPG", ".JPG") && ".JPG" in ImgExtensions;
    assert EndsWith("photo.jpeg", ".jpeg") && ".jpeg" in ImgExtensions;
    assert EndsWith(".jpg", ".jpg");
  }

  /** Mixed-case spellings of a listed extension are rejected. */
  lemma MixedCaseRejected()
    ensures !IsImageFile("x.JpG")
    ensures !IsImageFile("x.Png")
  {
    if IsImageFile("x.JpG") { AcceptedNameShape("x.JpG"); }
    if IsImageFile("x.Png") { AcceptedNameShape("x.Png"); }
  }

  /** Mixed-case spellings of `.jpeg` whose odd letter is the `j` are
      rejected for every stem, although their last three letters share one
      case. */
  lemma MixedCaseJpegRejected(stem: string)
    ensures !IsImageFile(stem + ".Jpeg")
    ensures !IsImageFile(stem + ".jPEG")
  {
    var f := stem + ".Jpeg";
    assert f[|f| - 4] == 'J' && f[|f| - 1] == 'g';
    if IsImageFile(f) {
      AcceptedNameShape(f);
    }
    var g := stem + ".jPEG";
    assert g[|g| - 4] == 'j' && g[|g| - 1] == 'G';
    if IsImageFile(g) {
      AcceptedNameShape(g);
    }
  }

  /** Two names that carry a listed extension followed by more text are
      rejected. */
  lemma TrailingTextRejected()
    ensures !IsImageFile("a.jpg.gif")
    ensures !IsImageFile("a.png ")
  {
    if IsImageFile("a.jpg.gif") { AcceptedNameShape("a.jpg.gif"); }
    if IsImageFile("a.png ") { AcceptedNameShape("a.png "); }
  }

  /** Every name ending in the unlisted extensions `.gif` or `.tiff` is
      rejected, whatever its stem, and so is the empty name. */
  lemma UnlistedRejected(stem: string)
    ensures !IsImageFile(stem + ".gif")
    ensures !IsImageFile(stem + ".tiff")
    ensures !IsImageFile("")
  {
    var gif := stem + ".gif";
    assert gif[|gif| - 1] == 'f';
    RejectsOtherFinalCharacter(gif);
    var tiff := stem + ".tiff";
    assert tiff[|tiff| - 1] == 'f';
    RejectsOtherFinalCharacter(tiff);
    RejectsShortNames("");
  }
}

/**
 The name and URL handling of the file controller: the extension taken from an uploaded
 file's original name, the name the upload is stored under (the upload time in milliseconds,
 a dot, the extension), the name an image fetched by URL is saved under (a UUID, a dot, an
 extension), and the public URL returned for an upload. The clock value and the UUID are
 parameters.
 */
module FileController {
  import opened JsString
  import opened NumberText

  datatype Option<T> = None | Some(value: T)

  /** The fixed prefix of every URL the upload response hands out. */
  const Base: string := "https://193.106.55.140:80/"

  // ---------------------------------------------------------------------------
  // Dotted names

  /** A name that neither starts nor ends with a dot and has no two dots in a row. */
  predicate DottedName(s: string)
  {
    s == [] ||
    (s[0] != '.' && s[|s| - 1] != '.' &&
     forall i :: 0 <= i < |s| - 1 && s[i] == '.' ==> s[i + 1] != '.')
  }

  /** The non-empty dot-separated segments of a name, in order. */
  function Segments(name: string): (segs: seq<string>)
    ensures forall k :: 0 <= k < |segs| ==> segs[k] != "" && '.' !in segs[k]
  {
    var pieces := Split(name, '.');
    var kept := DropEmpty(pieces);
    assert forall k :: 0 <= k < |kept| ==> exists j :: 0 <= j < |pieces| && kept[k] == pieces[j];
    kept
  }

  /** Reference definition, one character at a time: leading dots are dropped, a run of dots
      between two other characters becomes a single dot, and trailing dots are dropped. */
  function Collapse(s: string): string
  {
    if s == [] then []
    else if s[0] == '.' then Collapse(s[1..])
    else
      var t := s[1..];
      if t != [] && t[0] == '.' && Collapse(t) != [] then [s[0], '.'] + Collapse(t)
      else [s[0]] + Collapse(t)
  }

  /** The characters before the first dot (all of them when there is none). */
  function BeforeFirstDot(s: string): string
  {
    if s == [] || s[0] == '.' then [] else [s[0]] + BeforeFirstDot(s[1..])
  }

  /** The characters after the first dot (none when there is no dot). */
  function AfterFirstDot(s: string): string
  {
    if s == [] then [] else if s[0] == '.' then s[1..] else AfterFirstDot(s[1..])
  }

  lemma {:induction false} FirstDotOfFree(x: string)
    requires '.' !in x
    ensures BeforeFirstDot(x) == x && AfterFirstDot(x) == []
  {
    if x != [] {
      assert x[0] == x[..1][0];
      FirstDotOfFree(x[1..]);
      assert [x[0]] + x[1..] == x;
    }
  }

  lemma {:induction false} FirstDotAfterFree(x: string, y: string)
    requires '.' !in x
    ensures BeforeFirstDot(x + "." + y) == x && AfterFirstDot(x + "." + y) == y
  {
    var s := x + "." + y;
    if x == [] {
      assert s[1..] == y;
    } else {
      assert x[0] == x[..1][0];
      assert s[1..] == x[1..] + "." + y;
      FirstDotAfterFree(x[1..], y);
      assert [x[0]] + x[1..] == x;
    }
  }

  /** A segment, a dot and a non-empty dotted name form a dotted name. */
  lemma PrependSegment(x: string, w: string)
    requires x != [] && '.' !in x
    requires w != [] && DottedName(w)
    ensures DottedName(x + "." + w)
  {
    var s := x + "." + w;
    forall i | 0 <= i < |s| - 1
      ensures s[i] == '.' ==> s[i + 1] != '.'
    {
      if i < |x| {
        assert s[i] == x[i] && x[i] in x;
      } else if i > |x| {
        assert s[i] == w[i - |x| - 1] && s[i + 1] == w[i - |x|];
      }
    }
    assert s[0] == x[0];
  }

  /** Joining non-empty, dot-free segments with dots gives a dotted name. */
  lemma {:induction false} JoinDotted(segs: seq<string>)
    requires forall k :: 0 <= k < |segs| ==> segs[k] != "" && '.' !in segs[k]
    ensures DottedName(Join(segs, '.'))
  {
    if |segs| == 1 {
      var x := segs[0];
      assert x[0] in x && x[|x| - 1] in x;
      assert forall i :: 0 <= i < |x| ==> x[i] in x;
    } else if |segs| > 1 {
      JoinDotted(segs[1..]);
      JoinEmptyIff(segs[1..], '.');
      PrependSegment(segs[0], Join(segs[1..], '.'));
    }
  }

  /** A dotted name resumed at a non-dot character is still a dotted name. */
  lemma DottedSuffix(s: string, k: nat)
    requires DottedName(s) && k < |s| && s[k] != '.'
    ensures DottedName(s[k..])
  {
    var u := s[k..];
    forall i | 0 <= i < |u| - 1 && u[i] == '.'
      ensures u[i + 1] != '.'
    {
      assert u[i] == s[k + i] && u[i + 1] == s[k + i + 1];
    }
  }

  /** A leading dot only adds an empty piece, which the filter drops. */
  lemma SegmentsAfterDot(s: string)
    requires s != [] && s[0] == '.'
    ensures Segments(s) == Segments(s[1..])
  {
    var pieces := Split(s[1..], '.');
    assert Split(s, '.') == [""] + pieces;
    assert ([""] + pieces)[1..] == pieces;
  }

  /** A leading non-dot character joins the first piece, which is then kept. */
  lemma SegmentsAfterChar(s: string)
    requires s != [] && s[0] != '.'
    ensures var pieces := Split(s[1..], '.');
            Segments(s) == [[s[0]] + pieces[0]] + DropEmpty(pieces[1..])
  {
    var pieces := Split(s[1..], '.');
    var first := [s[0]] + pieces[0];
    assert Split(s, '.') == [first] + pieces[1..];
    assert ([first] + pieces[1..])[1..] == pieces[1..];
  }

  /** The first piece of a split is empty exactly when the string is empty or starts with the separator. */
  lemma SegmentsOfPieces(t: string)
    ensures var pieces := Split(t, '.');
            (pieces[0] == "" <==> t == [] || t[0] == '.') &&
            Segments(t) == (if pieces[0] == "" then [] else [pieces[0]]) + DropEmpty(pieces[1..])
  {
    var pieces := Split(t, '.');
    assert pieces == [pieces[0]] + pieces[1..];
    assert ([pieces[0]] + pieces[1..])[1..] == pieces[1..];
  }

  /** One step of the agreement below, for a name whose first character is not a dot. */
  lemma CollapseCharStep(s: string)
    requires s != [] && s[0] != '.'
    requires Collapse(s[1..]) == Join(Segments(s[1..]), '.')
    ensures Collapse(s) == Join(Segments(s), '.')
  {
    var t := s[1..];
    var pieces := Split(t, '.');
    var h := pieces[0];
    var r := DropEmpty(pieces[1..]);
    var jr := Join(r, '.');
    SegmentsAfterChar(s);
    SegmentsOfPieces(t);
    JoinCons([s[0]] + h, r, '.');
    JoinEmptyIff(r, '.');
    assert Join(Segments(s), '.') == if r == [] then [s[0]] + h else [s[0]] + h + "." + jr;
    if h == "" {
      if t == [] {
        assert pieces == [""];
      }
      HeadlessStep(s, r);
      assert [s[0]] + h == [s[0]];
    } else {
      JoinCons(h, r, '.');
      HeadedStep(s, h, jr, r == []);
    }
  }

  /** The case of the step above where the rest of the name starts with a non-dot character. */
  lemma HeadedStep(s: string, h: string, jr: string, last: bool)
    requires s != [] && s[0] != '.'
    requires s[1..] != [] && s[1..][0] != '.'
    requires Collapse(s[1..]) == if last then h else h + "." + jr
    ensures Collapse(s) == if last then [s[0]] + h else [s[0]] + h + "." + jr
  {
    assert Collapse(s) == [s[0]] + Collapse(s[1..]);
  }

  /** The case of the step above where the rest of the name is empty or starts with a dot. */
  lemma HeadlessStep(s: string, r: seq<string>)
    requires s != [] && s[0] != '.'
    requires s[1..] == [] || s[1..][0] == '.'
    requires forall k :: 0 <= k < |r| ==> r[k] != ""
    requires s[1..] == [] ==> r == []
    requires Collapse(s[1..]) == Join(r, '.')
    ensures Collapse(s) == if r == [] then [s[0]] else [s[0]] + "." + Join(r, '.')
  {
    JoinEmptyIff(r, '.');
  }

  /** The split/filter/join chain and the character-level reference agree. */
  lemma {:induction false} CollapseIsJoinedSegments(s: string)
    ensures Collapse(s) == Join(Segments(s), '.')
  {
    if s != [] {
      CollapseIsJoinedSegments(s[1..]);
      if s[0] == '.' {
        SegmentsAfterDot(s);
      } else {
        CollapseCharStep(s);
      }
    }
  }

  /** The character-level collapse always yields a dotted name. */
  lemma CollapseDotted(s: string)
    ensures DottedName(Collapse(s))
  {
    CollapseIsJoinedSegments(s);
    JoinDotted(Segments(s));
  }

  /** A name is left unchanged by the collapse exactly when it is already a dotted name. */
  lemma {:induction false} CollapseFixesDotted(s: string)
    ensures Collapse(s) == s <==> DottedName(s)
  {
    CollapseDotted(s);
    if DottedName(s) && s != [] {
      var t := s[1..];
      if t != [] && t[0] == '.' {
        assert |s| >= 3 && s[2] != '.';
        DottedSuffix(s, 2);
        CollapseFixesDotted(s[2..]);
        assert t[1..] == s[2..];
        assert s == [s[0], '.'] + s[2..];
      } else if t != [] {
        DottedSuffix(s, 1);
        CollapseFixesDotted(t);
        assert s == [s[0]] + t;
      }
    }
  }

  // ---------------------------------------------------------------------------
  // The multer `filename` callback

  /** `originalname.split(".").filter(Boolean).slice(1).join(".")`: the non-empty segments of
      the original name after the first one, joined with dots. */
  function Extension(originalName: string): (ext: string)
    ensures DottedName(ext)
  {
    var segs := Segments(originalName);
    JoinDotted(SliceFrom(segs, 1));
    Join(SliceFrom(segs, 1), '.')
  }

  /** `Date.now() + "." + ext`: the upload time in decimal, a dot, and the extension. The first dot
      separates the two parts, and the part before it reads back as the upload time. */
  function StoredFilename(now: nat, originalName: string): (stored: string)
    ensures BeforeFirstDot(stored) == Decimal(now)
    ensures AfterFirstDot(stored) == Extension(originalName)
    ensures AllDigits(BeforeFirstDot(stored)) && DecimalValue(BeforeFirstDot(stored)) == now
  {
    FirstDotAfterFree(Decimal(now), Extension(originalName));
    DecimalRoundTrip(now);
    Decimal(now) + "." + Extension(originalName)
  }

  /** The extension is what follows the first dot once the name is collapsed: an
      independent, character-level description of the split/filter/slice/join chain. */
  lemma ExtensionByCharacters(originalName: string)
    ensures Extension(originalName) == AfterFirstDot(Collapse(originalName))
  {
    var segs := Segments(originalName);
    CollapseIsJoinedSegments(originalName);
    if |segs| == 1 {
      FirstDotOfFree(segs[0]);
    } else if |segs| > 1 {
      JoinCons(segs[0], segs[1..], '.');
      assert [segs[0]] + segs[1..] == segs;
      FirstDotAfterFree(segs[0], Join(segs[1..], '.'));
    }
  }

  /** The extension is empty exactly when the original name has at most one non-empty segment,
      and then the stored name is the upload time followed by a lone dot. */
  lemma ExtensionEmptyIff(now: nat, originalName: string)
    ensures Extension(originalName) == "" <==> |Segments(originalName)| <= 1
    ensures |Segments(originalName)| <= 1 ==> StoredFilename(now, originalName) == Decimal(now) + "."
  {
    var segs := Segments(originalName);
    JoinEmptyIff(SliceFrom(segs, 1), '.');
  }

  /** A non-empty extension has one segment fewer than the original name: splitting it on dots
      gives exactly the original's non-empty segments after the first. */
  lemma ExtensionSegments(originalName: string)
    requires |Segments(originalName)| >= 2
    ensures Split(Extension(originalName), '.') == Segments(originalName)[1..]
    ensures Occurrences(Extension(originalName), '.') == |Segments(originalName)| - 2
  {
    var segs := Segments(originalName);
    JoinSplitRoundTrip(SliceFrom(segs, 1), '.');
    assert SliceFrom(segs, 1) == segs[1..];
  }

  /** Behind a non-empty, dot-free stem, the extension of `stem.rest` is `rest` collapsed. */
  lemma ExtensionAfterStem(stem: string, rest: string)
    requires stem != [] && '.' !in stem
    ensures Extension(stem + "." + rest) == Collapse(rest)
  {
    var pieces := Split(rest, '.');
    SplitAfterFree(stem, rest, '.');
    assert Split(stem + "." + rest, '.') == [stem] + pieces;
    assert ([stem] + pieces)[1..] == pieces;
    assert DropEmpty([stem] + pieces) == [stem] + DropEmpty(pieces);
    assert SliceFrom([stem] + DropEmpty(pieces), 1) == DropEmpty(pieces);
    CollapseIsJoinedSegments(rest);
  }

  /** Round trip: the extension of a stored name is the extension it was stored with. */
  lemma StoredFilenameRoundTrip(now: nat, originalName: string)
    ensures Extension(StoredFilename(now, originalName)) == Extension(originalName)
  {
    ExtensionAfterStem(Decimal(now), Extension(originalName));
    CollapseFixesDotted(Extension(originalName));
  }

  /** Behind a timestamp, an extension comes back unchanged exactly when it is a dotted name,
      which every derived extension is. */
  lemma StoredExtensionIff(now: nat, ext: string)
    ensures Extension(Decimal(now) + "." + ext) == ext <==> DottedName(ext)
  {
    ExtensionAfterStem(Decimal(now), ext);
    CollapseFixesDotted(ext);
  }

  /** A multi-part extension is kept whole, and a doubled dot counts as one. */
  lemma ExtensionMultiPart()
    ensures Extension("a.tar.gz") == "tar.gz"
    ensures Extension("a..b") == "b"
  {
    assert "a.tar.gz" == "a" + "." + "tar.gz";
    ExtensionAfterStem("a", "tar.gz");
    CollapseFixesDotted("tar.gz");
    assert "a..b" == "a" + "." + ".b";
    ExtensionAfterStem("a", ".b");
    CollapseFixesDotted("b");
  }

  /** A name without a dot, the empty name, dots only and a dotfile all give no extension. */
  lemma ExtensionNone()
    ensures Extension("readme") == ""
    ensures Extension("") == ""
    ensures Extension("...") == ""
    ensures Extension(".bashrc") == ""
  {
    ExtensionByCharacters("readme");
    CollapseFixesDotted("readme");
    FirstDotOfFree("readme");
    ExtensionByCharacters("...");
    ExtensionByCharacters(".bashrc");
    CollapseFixesDotted("bashrc");
    FirstDotOfFree("bashrc");
  }

  // ---------------------------------------------------------------------------
  // generateUniqueFilename and the upload response

  /** The text `uuidv4()` produces: 36 characters, lower-case hexadecimal digits in groups of
      8-4-4-4-12 separated by hyphens, version digit 4 and variant digit one of 8, 9, a, b. */
  predicate IsUuidV4Text(u: string)
  {
    |u| == 36 &&
    (forall k :: 0 <= k < 36 ==>
       if k == 8 || k == 13 || k == 18 || k == 23 then u[k] == '-'
       else '0' <= u[k] <= '9' || 'a' <= u[k] <= 'f') &&
    u[14] == '4' && u[19] in "89ab"
  }

  /** `${uuid}.${extension}`. */
  function UniqueFilename(uuid: string, extension: string): (name: string)
    ensures '.' in name
    ensures |name| == |uuid| + 1 + |extension|
    ensures name[..|uuid|] == uuid && name[|uuid|..] == "." + extension
  {
    assert (uuid + "." + extension)[|uuid|] == '.';
    uuid + "." + extension
  }

  /** A UUID text is non-empty and has no dot. */
  lemma UuidHasNoDot(u: string)
    requires IsUuidV4Text(u)
    ensures u != [] && '.' !in u
  {
    forall k | 0 <= k < |u|
      ensures u[k] != '.'
    {
    }
  }

  /** With a dot-free UUID, the first dot of the generated name separates the UUID and the
      extension again, and deriving an extension from the name gives the extension collapsed. */
  lemma UniqueFilenameParts(uuid: string, extension: string)
    requires IsUuidV4Text(uuid)
    ensures BeforeFirstDot(UniqueFilename(uuid, extension)) == uuid
    ensures AfterFirstDot(UniqueFilename(uuid, extension)) == extension
    ensures Extension(UniqueFilename(uuid, extension)) == Collapse(extension)
  {
    UuidHasNoDot(uuid);
    FirstDotAfterFree(uuid, extension);
    ExtensionAfterStem(uuid, extension);
  }

  /** The image fetched by `downloadImage` is saved under a name whose extension is "png". */
  lemma DownloadedImageIsPng(uuid: string)
    requires IsUuidV4Text(uuid)
    ensures Extension(UniqueFilename(uuid, "png")) == "png"
  {
    UniqueFilenameParts(uuid, "png");
    CollapseFixesDotted("png");
  }

  /** `base + req.file.path`: the fixed prefix followed by the stored path, unchanged. */
  function UploadUrl(path: string): (url: string)
    ensures |url| == |Base| + |path|
    ensures url[..|Base|] == Base && url[|Base|..] == path
  {
    Base + path
  }

  /** The file path a response URL carries, if the URL has the fixed prefix. */
  function PathOfUrl(url: string): Option<string>
  {
    if |Base| <= |url| && url[..|Base|] == Base then Some(url[|Base|..]) else None
  }

  /** Every path is recovered from its URL, and every URL with the prefix comes from its path. */
  lemma UploadUrlRoundTrip(path: string, url: string)
    ensures PathOfUrl(UploadUrl(path)) == Some(path)
    ensures PathOfUrl(url) == Some(path) ==> UploadUrl(path) == url
  {
    if PathOfUrl(url) == Some(path) {
      assert url == url[..|Base|] + url[|Base|..];
    }
  }
}

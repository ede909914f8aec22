/** File naming and validation of image uploads (extras/utils.py): the
    normalised extension of an uploaded name, the owner label and storage
    path of an attachment, and the landscape-only rule. */
module Uploads {
  import opened Options
  import opened Text

  /** The index of the last `c` in `s`, or -1 (`str.rfind`). */
  function RFind(s: string, c: char): (i: int)
    ensures -1 <= i < |s|
    ensures i >= 0 ==> s[i] == c
    ensures forall k | i < k < |s| :: s[k] != c
    decreases |s|
  {
    if |s| == 0 then -1
    else if s[|s| - 1] == c then |s| - 1
    else RFind(s[..|s| - 1], c)
  }

  /** A `c` at `k` with none after it is the last one. */
  lemma RFindIs(s: string, c: char, k: int)
    requires 0 <= k < |s| && s[k] == c
    requires forall j | k < j < |s| :: s[j] != c
    ensures RFind(s, c) == k
  {
  }

  /** With no `c` from index `k` on, the last `c` is before `k`. */
  lemma RFindBefore(s: string, c: char, k: int)
    requires 0 <= k <= |s|
    requires forall j | k <= j < |s| :: s[j] != c
    ensures RFind(s, c) < k
  {
  }

  /** The extension `os.path.splitext` splits off (POSIX paths): from the
      last '.' of the last path component, provided that component has a
      character other than '.' before it; "" otherwise. */
  function Extension(p: string): (e: string)
    ensures e == "" || (e[0] == '.' && forall k | 1 <= k < |e| :: e[k] != '.' && e[k] != '/')
    ensures |e| <= |p| && e == p[|p| - |e|..]
    ensures e != "" <==> RFind(p, '.') > RFind(p, '/') && exists k | RFind(p, '/') < k < RFind(p, '.') :: p[k] != '.'
    ensures e != "" ==> e == p[RFind(p, '.')..]
  {
    var sep := RFind(p, '/');
    var dot := RFind(p, '.');
    if dot > sep && exists k | sep < k < dot :: p[k] != '.' then p[dot..] else ""
  }

  /** `s.lstrip(".")`. */
  function StripLeadingDots(s: string): (r: string)
    ensures |r| <= |s| && r == s[|s| - |r|..]
    ensures r == "" || r[0] != '.'
    ensures forall k | 0 <= k < |s| - |r| :: s[k] == '.'
    decreases |s|
  {
    if |s| > 0 && s[0] == '.' then
      var r := StripLeadingDots(s[1..]);
      assert forall k | 1 <= k < |s| - |r| :: s[k] == s[1..][k - 1];
      r
    else s
  }

  /** "jpeg" is spelled "jpg"; every other extension is kept. */
  function JpegAsJpg(ext: string): string {
    if ext == "jpeg" then "jpg" else ext
  }

  /** `normalize_ext`: the extension in lower case without its dot, with
      "jpeg" spelled "jpg". */
  function NormalizeExt(filename: string): (r: string)
    ensures r != "jpeg"
    ensures Extension(filename) == "" ==> r == ""
  {
    JpegAsJpg(StripLeadingDots(AsciiLower(Extension(filename))))
  }

  /** Stripping the dots of ".x..." (x not a dot) removes exactly one. */
  lemma StripOneDot(s: string)
    requires |s| >= 1 && s[0] == '.' && (|s| == 1 || s[1] != '.')
    ensures StripLeadingDots(s) == s[1..]
  {
    assert StripLeadingDots(s) == StripLeadingDots(s[1..]);
    if |s| > 1 {
      assert s[1..][0] != '.';
    }
  }

  /** Lower-casing keeps every character that is not an upper-case letter
      and never produces a dot or a slash from a letter. */
  lemma LowerKeepsSeparators(c: char)
    ensures AsciiLowerChar(c) == '.' <==> c == '.'
    ensures AsciiLowerChar(c) == '/' <==> c == '/'
  {
  }

  /** A normalised extension has no dot, slash or upper-case letter, and is
      never "jpeg"; it is empty exactly when the name has no extension or
      only a bare trailing dot. */
  lemma NormalizeExtShape(filename: string)
    ensures var r := NormalizeExt(filename);
            && r != "jpeg"
            && (forall k | 0 <= k < |r| :: r[k] != '.' && r[k] != '/' && !IsAsciiUpper(r[k]))
            && (r == "" <==> |Extension(filename)| <= 1)
  {
    var e := Extension(filename);
    if e != "" {
      NormalizeExtOfExtension(filename);
      var x := AsciiLower(e[1..]);
      forall k | 0 <= k < |x|
        ensures x[k] != '.' && x[k] != '/' && !IsAsciiUpper(x[k])
      {
        LowerKeepsSeparators(e[k + 1]);
      }
      assert NormalizeExt(filename) == JpegAsJpg(x);
      assert x == "" <==> |e| <= 1;
    }
  }

  /** The extension of `stem.e`, for an extension `e` without dots or
      slashes and a stem whose last character is neither: `e` lower-cased,
      with "jpeg" spelled "jpg". */
  lemma NormalizeExtOfJoined(stem: string, e: string)
    requires |stem| > 0 && stem[|stem| - 1] != '.' && stem[|stem| - 1] != '/'
    requires forall k | 0 <= k < |e| :: e[k] != '.' && e[k] != '/'
    ensures NormalizeExt(stem + "." + e) == JpegAsJpg(AsciiLower(e))
  {
    var p := stem + "." + e;
    ExtensionOfJoined(stem, e);
    NormalizeExtOfExtension(p);
    assert ("." + e)[1..] == e;
  }

  /** `splitext` of `stem.e` splits off ".e". */
  lemma ExtensionOfJoined(stem: string, e: string)
    requires |stem| > 0 && stem[|stem| - 1] != '.' && stem[|stem| - 1] != '/'
    requires forall k | 0 <= k < |e| :: e[k] != '.' && e[k] != '/'
    ensures Extension(stem + "." + e) == "." + e
  {
    var p := stem + "." + e;
    var dot := |stem|;
    assert p[dot] == '.';
    assert forall j | dot < j < |p| :: p[j] == e[j - dot - 1];
    RFindIs(p, '.', dot);
    RFindBefore(p, '/', dot - 1);
    assert p[dot - 1] != '.';
    assert p[dot..] == "." + e;
  }

  /** Whenever `splitext` finds an extension, the normalised extension is
      what follows its dot, lower-cased, with "jpeg" spelled "jpg". */
  lemma NormalizeExtOfExtension(filename: string)
    ensures var e := Extension(filename);
            e != "" ==> NormalizeExt(filename) == JpegAsJpg(AsciiLower(e[1..]))
  {
    var e := Extension(filename);
    if e != "" {
      StripDottedExtension(e);
    }
  }

  /** Lower-casing and stripping ".x" with no further dot leaves x lower-cased. */
  lemma StripDottedExtension(e: string)
    requires e != "" && e[0] == '.' && forall k | 1 <= k < |e| :: e[k] != '.'
    ensures StripLeadingDots(AsciiLower(e)) == AsciiLower(e[1..])
  {
    var lower := AsciiLower(e);
    LowerKeepsSeparators(e[0]);
    if |e| > 1 {
      LowerKeepsSeparators(e[1]);
    }
    StripOneDot(lower);
    assert lower[1..] == AsciiLower(e[1..]);
  }

  /** Normalising is stable: a name carrying a normalised extension
      normalises to that extension again. */
  lemma NormalizeExtIdempotent(stem: string, filename: string)
    requires |stem| > 0 && stem[|stem| - 1] != '.' && stem[|stem| - 1] != '/'
    ensures NormalizeExt(stem + "." + NormalizeExt(filename)) == NormalizeExt(filename)
  {
    var e := NormalizeExt(filename);
    NormalizeExtShape(filename);
    NormalizeExtOfJoined(stem, e);
    AsciiLowerIdentity(e);
  }

  // ---------------------------------------------------------------------
  // Storage path

  /** `owner_label`: the content type's model name when the attachment has
      a content type (a non-zero id), "unassigned" otherwise. */
  function OwnerLabel(contentTypeId: Option<nat>, modelName: string): (r: string)
    ensures contentTypeId.None? || contentTypeId == Some(0) ==> r == "unassigned"
    ensures contentTypeId.Some? && contentTypeId.value != 0 ==> r == modelName
  {
    if contentTypeId.Some? && contentTypeId.value != 0 then modelName else "unassigned"
  }

  /** `instance.object_id or "noid"`. */
  function ObjectIdText(objectId: Option<nat>): (r: string)
    ensures r == "noid" <==> objectId.None? || objectId == Some(0)
    ensures objectId.Some? && objectId.value != 0 ==>
              (forall k | 0 <= k < |r| :: IsDigit(r[k])) && ParseDecimal(r) == objectId.value
  {
    if objectId.Some? && objectId.value != 0 then
      var d := DecimalString(objectId.value);
      DecimalRoundTrip(objectId.value);
      assert IsDigit(d[0]);
      d
    else "noid"
  }

  predicate IsLowerHex(c: char) {
    IsDigit(c) || 'a' <= c <= 'f'
  }

  /** `image_upload`: "media/<label>-<oid>-<short>.jpg", whatever the
      uploaded name (its normalised extension is computed and then
      replaced by "jpg"). `short` is the eight hex digits taken from a random
      UUID, supplied by the caller. */
  function ImageUpload(contentTypeId: Option<nat>, modelName: string, objectId: Option<nat>,
                       filename: string, short: string): (r: string)
    requires |short| == 8 && forall k | 0 <= k < 8 :: IsLowerHex(short[k])
    ensures |r| >= 18 && r[..6] == "media/" && r[|r| - 4..] == ".jpg"
  {
    var owner := OwnerLabel(contentTypeId, modelName);
    var oid := ObjectIdText(objectId);
    "media/" + owner + "-" + oid + "-" + short + ".jpg"
  }

  /** The stored name is "<stem>.jpg" for a stem ending in the random
      fragment, whatever was uploaded. */
  lemma ImageUploadLayout(contentTypeId: Option<nat>, modelName: string, objectId: Option<nat>,
                          filename: string, other: string, short: string)
    requires |short| == 8 && forall k | 0 <= k < 8 :: IsLowerHex(short[k])
    ensures var r := ImageUpload(contentTypeId, modelName, objectId, filename, short);
            && |r| >= 18
            && r[..6] == "media/"
            && r[|r| - 12..] == short + ".jpg"
            && r == ImageUpload(contentTypeId, modelName, objectId, other, short)
  {
    var r := ImageUpload(contentTypeId, modelName, objectId, filename, short);
    var head := "media/" + OwnerLabel(contentTypeId, modelName) + "-" + ObjectIdText(objectId) + "-";
    assert r == head + (short + ".jpg");
    assert r[..6] == head[..6];
  }

  /** The stored name always normalises to the extension "jpg". */
  lemma ImageUploadIsJpg(contentTypeId: Option<nat>, modelName: string, objectId: Option<nat>,
                         filename: string, short: string)
    requires |short| == 8 && forall k | 0 <= k < 8 :: IsLowerHex(short[k])
    ensures NormalizeExt(ImageUpload(contentTypeId, modelName, objectId, filename, short)) == "jpg"
  {
    var stem := "media/" + OwnerLabel(contentTypeId, modelName) + "-" + ObjectIdText(objectId) + "-" + short;
    assert stem[|stem| - 1] == short[7];
    assert ImageUpload(contentTypeId, modelName, objectId, filename, short) == stem + "." + "jpg";
    NormalizeExtOfJoined(stem, "jpg");
    JpgIsLowerCase();
  }

  lemma JpgIsLowerCase()
    ensures AsciiLower("jpg") == "jpg"
  {
    AsciiLowerIdentity("jpg");
  }

  // ---------------------------------------------------------------------
  // Landscape rule

  const NotAnImage := "Uploaded file is not a valid image."
  const NotLandscape := "Image must be landscape orientation (width greater than height)."

  /** `validate_landscape_image` given the decoded (width, height), or None
      when the file does not decode: the error message raised, or None when
      the image is accepted. */
  function ValidateLandscape(size: Option<(nat, nat)>): (r: Option<string>)
    ensures r.None? <==> size.Some? && size.value.0 > size.value.1
    ensures size.None? ==> r == Some(NotAnImage)
  {
    if size.None? then Some(NotAnImage)
    else if size.value.0 <= size.value.1 then Some(NotLandscape)
    else None
  }

  /** Square and portrait images are rejected as not landscape. */
  lemma SquareRejected(n: nat, m: nat)
    requires n <= m
    ensures ValidateLandscape(Some((n, m))) == Some(NotLandscape)
    ensures ValidateLandscape(Some((m + 1, m))).None?
  {
  }
}

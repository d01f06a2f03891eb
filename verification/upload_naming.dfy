/**
 The storage naming of uploadMiddleware.js: the `params` callback that tells
 the storage provider where to put an uploaded file and under which name.

 `path.extname` and `path.basename` are modelled for POSIX paths, where `/`
 is the only separator. The clock reading `Date.now()` is a parameter.
 */
module UploadNaming {
  import opened Wrappers
  import opened Strings

  /** The storage folder every upload goes to. */
  const Folder: string := "3d-models"

  /** The storage resource type of every upload. */
  const ResourceType: string := "raw"

  /** `p` without the run of `/` at its end. */
  function StripTrailingSlashes(p: string): (r: string)
    ensures |r| <= |p| && r == p[..|r|]
    ensures r == [] || r[|r| - 1] != '/'
    ensures forall i :: |r| <= i < |p| ==> p[i] == '/'
  {
    if |p| > 0 && p[|p| - 1] == '/' then StripTrailingSlashes(p[..|p| - 1]) else p
  }

  /** The part of `p` after its last `/`; all of `p` when it has none. */
  function AfterLastSlash(p: string): (r: string)
    ensures |r| <= |p| && r == p[|p| - |r|..]
    ensures forall i :: 0 <= i < |r| ==> r[i] != '/'
    ensures |r| < |p| ==> p[|p| - |r| - 1] == '/'
  {
    if p == [] || p[|p| - 1] == '/' then [] else AfterLastSlash(p[..|p| - 1]) + [p[|p| - 1]]
  }

  /** `path.basename(p)`: the last path segment, trailing separators ignored. */
  function LastSegment(p: string): (seg: string)
    ensures |seg| <= |p|
    ensures forall i :: 0 <= i < |seg| ==> seg[i] != '/'
    ensures var q := StripTrailingSlashes(p);
            && |seg| <= |q| && seg == q[|q| - |seg|..]
            && (|seg| < |q| ==> q[|q| - |seg| - 1] == '/')
  {
    AfterLastSlash(StripTrailingSlashes(p))
  }

  /** The position of the last `.` in `c`. */
  function LastDot(c: string): (r: Option<nat>)
    ensures r.None? ==> forall i :: 0 <= i < |c| ==> c[i] != '.'
    ensures r.Some? ==> r.value < |c| && c[r.value] == '.'
                        && forall i :: r.value < i < |c| ==> c[i] != '.'
  {
    if c == [] then None
    else if c[|c| - 1] == '.' then Some(|c| - 1)
    else LastDot(c[..|c| - 1])
  }

  /**
   The extension of one path segment as `path.extname` finds it: from the last
   `.` to the end, except that a segment whose only dot is its first character
   (`.glb`), a segment without a dot, and the segment `..` have none.
   */
  function SegmentExt(seg: string): (e: string)
    ensures e != "" ==> |e| < |seg| && e == seg[|seg| - |e|..] && e[0] == '.'
                        && forall i :: 1 <= i < |e| ==> e[i] != '.'
    ensures e == "" <==> seg == ".." || forall i :: 1 <= i < |seg| ==> seg[i] != '.'
  {
    if seg == ".." then ""
    else
      match LastDot(seg)
      case None => ""
      case Some(i) => if i == 0 then "" else seg[i..]
  }

  /** `path.extname(p)`. */
  function ExtName(p: string): (e: string)
    ensures var seg := LastSegment(p);
            e != "" ==> |e| < |seg| && e == seg[|seg| - |e|..] && e[0] == '.'
  {
    SegmentExt(LastSegment(p))
  }

  /**
   The suffix rule of `path.basename(p, suffix)` on one segment: `suffix` is
   cut off the end when the segment ends with it. Node's algorithm treats a
   suffix at least as long as the segment differently; the extension passed
   here is always shorter (ExtShorterThanSegment), so that branch is not
   modelled.
   */
  function CutSuffix(seg: string, suffix: string): (r: string)
    ensures r == seg || (suffix != "" && r + suffix == seg)
  {
    if suffix != "" && |suffix| < |seg| && seg[|seg| - |suffix|..] == suffix then
      assert seg[..|seg| - |suffix|] + seg[|seg| - |suffix|..] == seg;
      seg[..|seg| - |suffix|]
    else
      seg
  }

  /** `path.basename(p, suffix)`. */
  function BaseName(p: string, suffix: string): (b: string)
    ensures b == LastSegment(p) || (suffix != "" && b + suffix == LastSegment(p))
    ensures forall i :: 0 <= i < |b| ==> b[i] != '/'
  {
    CutSuffix(LastSegment(p), suffix)
  }

  /** The characters left in a sanitised stem: `[a-zA-Z0-9]` and `-`. */
  predicate IsSafeChar(c: char) {
    IsAsciiAlnum(c) || c == '-'
  }

  /**
   `s.replace(/[^a-zA-Z0-9]/g, "-")`: every character outside `[a-zA-Z0-9]`
   becomes `-`, one for one; letters and digits are kept.
   */
  function Sanitize(s: string): (r: string)
    ensures |r| == |s|
    ensures forall i :: 0 <= i < |s| ==> IsSafeChar(r[i])
    ensures forall i :: 0 <= i < |s| && IsAsciiAlnum(s[i]) ==> r[i] == s[i]
  {
    if s == [] then []
    else [if IsAsciiAlnum(s[0]) then s[0] else '-'] + Sanitize(s[1..])
  }

  /** The extension the storage name ends with: `path.extname(originalname).toLowerCase()`. */
  function LowerExt(originalname: string): (ext: string)
    ensures |ext| == |ExtName(originalname)|
    ensures forall i :: 0 <= i < |ext| ==> ext[i] == LowerChar(ExtName(originalname)[i])
    ensures forall i :: 0 <= i < |ext| ==> !IsAsciiUpper(ext[i])
    ensures ext == "" || ext[0] == '.'
  {
    ToLowerAscii(ExtName(originalname))
  }

  /** The sanitised stem: the base name with the lower-cased extension cut off, then sanitised. */
  function Stem(originalname: string): (stem: string)
    ensures forall i :: 0 <= i < |stem| ==> IsSafeChar(stem[i])
    ensures |stem| == |BaseName(originalname, LowerExt(originalname))|
  {
    Sanitize(BaseName(originalname, LowerExt(originalname)))
  }

  /** What `params` returns to the storage provider. */
  datatype StorageParams = StorageParams(folder: string, publicId: string, resourceType: string)

  /**
   The `params` callback: folder and resource type are fixed, and the public id
   is the upload time in milliseconds, a `-`, the sanitised stem and the
   lower-cased extension.
   */
  function Params(originalname: string, now: nat): (p: StorageParams)
    ensures p.folder == "3d-models" && p.resourceType == "raw"
  {
    StorageParams(Folder, NatToDecimal(now) + "-" + Stem(originalname) + LowerExt(originalname), ResourceType)
  }

  /** The extension handed to `path.basename` is shorter than the last segment and is never the whole path. */
  lemma ExtShorterThanSegment(p: string)
    ensures LowerExt(p) != "" ==> |LowerExt(p)| < |LastSegment(p)| && LowerExt(p) != p
  {
  }

  /** Every character outside `[a-zA-Z0-9]` becomes `-`. */
  lemma {:induction false} SanitizeReplacesWithDash(s: string, i: nat)
    requires i < |s| && !IsAsciiAlnum(s[i])
    ensures Sanitize(s)[i] == '-'
    decreases |s|
  {
    if i > 0 {
      SanitizeReplacesWithDash(s[1..], i - 1);
    }
  }

  /** A string made of safe characters only is left as it is. */
  lemma {:induction false} SanitizeFixesSafe(s: string)
    requires forall i :: 0 <= i < |s| ==> IsSafeChar(s[i])
    ensures Sanitize(s) == s
    decreases |s|
  {
    if s != [] {
      SanitizeFixesSafe(s[1..]);
    }
  }

  /** Sanitising an already sanitised stem changes nothing. */
  lemma SanitizeIdempotent(s: string)
    ensures Sanitize(Sanitize(s)) == Sanitize(s)
  {
    SanitizeFixesSafe(Sanitize(s));
  }

  /** A segment's lower-cased extension that matches the segment's ending is cut off it. */
  lemma SegmentMatchingExtensionIsCut(seg: string)
    requires SegmentExt(seg) != "" && ToLowerAscii(SegmentExt(seg)) == SegmentExt(seg)
    ensures CutSuffix(seg, SegmentExt(seg)) + SegmentExt(seg) == seg
  {
  }

  /** A segment's lower-cased extension that differs from the segment's ending cuts nothing. */
  lemma SegmentUnmatchedExtensionStays(seg: string)
    requires ToLowerAscii(SegmentExt(seg)) != SegmentExt(seg)
    ensures SegmentExt(seg) != ""
    ensures CutSuffix(seg, ToLowerAscii(SegmentExt(seg))) == seg
  {
    var e := SegmentExt(seg);
    var l := ToLowerAscii(e);
    assert |l| == |e|;
    assert seg[|seg| - |l|..] == e;
  }

  /** Sanitising a segment turns the dot that opens its extension into `-`. */
  lemma SegmentExtensionDotDashed(seg: string)
    requires SegmentExt(seg) != ""
    ensures |seg| - |SegmentExt(seg)| >= 0
    ensures Sanitize(seg)[|seg| - |SegmentExt(seg)|] == '-'
  {
    var e := SegmentExt(seg);
    var k := |seg| - |e|;
    assert seg[k] == e[0] == '.';
    SanitizeReplacesWithDash(seg, k);
  }

  /**
   When the extension is already lower case, the stem is what precedes it in
   the last segment: stem and extension together give back the segment.
   */
  lemma MatchingExtensionIsCut(p: string)
    requires ExtName(p) != "" && ExtName(p) == LowerExt(p)
    ensures BaseName(p, LowerExt(p)) + LowerExt(p) == LastSegment(p)
  {
    SegmentMatchingExtensionIsCut(LastSegment(p));
  }

  /**
   When the extension has an upper-case letter (`.GLB`), the lower-cased suffix
   does not match, so nothing is cut: the stem is the whole last segment
   sanitised.
   */
  lemma UpperCaseExtensionStays(p: string)
    requires ExtName(p) != LowerExt(p)
    ensures BaseName(p, LowerExt(p)) == LastSegment(p)
    ensures Stem(p) == Sanitize(LastSegment(p))
  {
    SegmentUnmatchedExtensionStays(LastSegment(p));
  }

  /** In that stem, the dot that opened the extension has become `-`. */
  lemma UpperCaseExtensionDotDashed(p: string)
    requires ExtName(p) != LowerExt(p)
    ensures ExtName(p) != "" && |ExtName(p)| <= |Stem(p)|
    ensures Stem(p)[|Stem(p)| - |ExtName(p)|] == '-'
  {
    var seg := LastSegment(p);
    UpperCaseExtensionStays(p);
    SegmentUnmatchedExtensionStays(seg);
    SegmentExtensionDotDashed(seg);
  }

  /**
   The public id opens with the decimal upload time, which reads back as
   `now`, followed by a `-`.
   */
  lemma PublicIdStartsWithTime(originalname: string, now: nat)
    ensures var id := Params(originalname, now).publicId;
            var d := NatToDecimal(now);
            && |id| > |d| && id[..|d|] == d && id[|d|] == '-'
            && DecimalValue(d) == now
  {
    PublicIdParts(originalname, now);
    DecimalRoundTrip(now);
  }

  /** The public id ends with the lower-cased extension. */
  lemma PublicIdEndsWithExtension(originalname: string, now: nat)
    ensures var id := Params(originalname, now).publicId;
            |id| >= |LowerExt(originalname)| && id[|id| - |LowerExt(originalname)|..] == LowerExt(originalname)
  {
    PublicIdParts(originalname, now);
  }

  /** Between the time's `-` and the extension, the public id holds exactly the sanitised stem. */
  lemma PublicIdHoldsStem(originalname: string, now: nat)
    ensures var id := Params(originalname, now).publicId;
            var d := NatToDecimal(now);
            var ext := LowerExt(originalname);
            && |d| + 1 <= |id| - |ext|
            && id[|d| + 1..|id| - |ext|] == Stem(originalname)
  {
    PublicIdParts(originalname, now);
  }

  /** The public id is `<now>-<stem><ext>`, and each part can be cut back out of it. */
  lemma PublicIdParts(originalname: string, now: nat)
    ensures var id := Params(originalname, now).publicId;
            var d := NatToDecimal(now);
            var m := Stem(originalname);
            var ext := LowerExt(originalname);
            && |id| == |d| + 1 + |m| + |ext|
            && id[..|d|] == d && id[|d|] == '-'
            && id[|d| + 1..|id| - |ext|] == m
            && id[|id| - |ext|..] == ext
  {
    var id := Params(originalname, now).publicId;
    assert id == NatToDecimal(now) + "-" + Stem(originalname) + LowerExt(originalname);
    Layout(NatToDecimal(now), Stem(originalname), LowerExt(originalname));
  }

  lemma Layout(d: string, m: string, e: string)
    ensures var id := d + "-" + m + e;
            && |id| == |d| + 1 + |m| + |e|
            && id[..|d|] == d && id[|d|] == '-'
            && id[|d| + 1..|id| - |e|] == m
            && id[|id| - |e|..] == e
  {
    var id := d + "-" + m + e;
    assert id == d + ("-" + m + e);
    assert id == (d + "-" + m) + e;
    assert (d + "-" + m)[|d| + 1..] == m;
  }

  /**
   Two uploads given the same public id were stored in the same millisecond:
   the time prefix holds no `-`, so it is read back unambiguously.
   */
  lemma PublicIdDeterminesTime(name1: string, now1: nat, name2: string, now2: nat)
    requires Params(name1, now1).publicId == Params(name2, now2).publicId
    ensures now1 == now2
  {
    var id := Params(name1, now1).publicId;
    PublicIdParts(name1, now1);
    PublicIdParts(name2, now2);
    DigitsBeforeDash(id, NatToDecimal(now1), NatToDecimal(now2));
    DecimalInjective(now1, now2);
  }

  /** Two digit strings, each a prefix of `id` directly followed by `-`, are the same string. */
  lemma DigitsBeforeDash(id: string, d1: string, d2: string)
    requires AllDigits(d1) && AllDigits(d2)
    requires |id| > |d1| && id[..|d1|] == d1 && id[|d1|] == '-'
    requires |id| > |d2| && id[..|d2|] == d2 && id[|d2|] == '-'
    ensures d1 == d2
  {
    DashNotInDigits(id, d1, d2);
    DashNotInDigits(id, d2, d1);
  }

  /** A digit prefix of `id` does not reach past a `-` of `id`. */
  lemma DashNotInDigits(id: string, d: string, e: string)
    requires AllDigits(e) && |id| > |d| && id[|d|] == '-'
    requires |id| > |e| && id[..|e|] == e
    ensures |e| <= |d|
  {
  }
}

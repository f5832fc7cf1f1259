/**
 * The two pure rules of `middlewares/upload.ts`: multer's `fileFilter` (accept
 * `.jpg`, `.jpeg` and `.png`, in any case) and the stored file name
 * `${Date.now()}-${originalname}`. `Date.now()` is the parameter `now`.
 */
module Upload {
  import opened Wrappers
  import opened Text

  // ---------------------------------------------------------------------------
  // path.extname (POSIX)

  /** The position of the last `c` in `s`. */
  function LastIndexOf(s: string, c: char): (r: Option<nat>)
    ensures r.Some? ==> r.value < |s| && s[r.value] == c
    ensures r.Some? ==> forall k :: r.value < k < |s| ==> s[k] != c
    ensures r.None? <==> c !in s
  {
    if |s| == 0 then None
    else if s[|s| - 1] == c then Some(|s| - 1)
    else
      var r := LastIndexOf(s[..|s| - 1], c);
      assert forall k :: 0 <= k < |s| - 1 ==> s[..|s| - 1][k] == s[k];
      assert c in s ==> c in s[..|s| - 1];
      r
  }

  /** `path` without its trailing `/` characters. */
  function TrimTrailingSlashes(path: string): (r: string)
    ensures StartsWith(path, r)
    ensures r == "" || r[|r| - 1] != '/'
    ensures forall k :: |r| <= k < |path| ==> path[k] == '/'
  {
    if |path| > 0 && path[|path| - 1] == '/' then TrimTrailingSlashes(path[..|path| - 1]) else path
  }

  /** The text after the last `/`: the last component of a path. */
  function LastComponent(path: string): (r: string)
    ensures EndsWith(path, r)
    ensures '/' !in r
  {
    match LastIndexOf(path, '/')
    case None => path
    case Some(i) =>
      var r := path[i + 1..];
      assert forall k :: 0 <= k < |r| ==> r[k] == path[i + 1 + k];
      r
  }

  /**
   * Node's `path.extname`: from the last `.` of the last component to its end; empty
   * when that component has no `.`, when its only `.` leads it (a dotfile such as
   * `.png`), or when it is `..`.
   */
  function Extname(path: string): (ext: string)
    ensures ext != "" ==> ext[0] == '.' && '.' !in ext[1..] && '/' !in ext
    ensures ext != "" ==> EndsWith(TrimTrailingSlashes(path), ext)
  {
    var trimmed := TrimTrailingSlashes(path);
    var base := LastComponent(trimmed);
    match LastIndexOf(base, '.')
    case None => ""
    case Some(d) =>
      if d == 0 || base == ".." then ""
      else
        ExtensionOfBase(trimmed, base, d);
        base[d..]
  }

  /**
   * The text from the last `.` of a base name is a suffix of the base name, hence of
   * the path it ends, with one leading `.` and no other `.` or `/`.
   */
  lemma ExtensionOfBase(path: string, base: string, d: nat)
    requires EndsWith(path, base) && '/' !in base
    requires d < |base| && base[d] == '.'
    requires forall k :: d < k < |base| ==> base[k] != '.'
    ensures var ext := base[d..];
      ext[0] == '.' && '.' !in ext[1..] && '/' !in ext && EndsWith(path, ext)
  {
    var ext := base[d..];
    assert forall k :: 0 <= k < |ext| ==> ext[k] == base[d + k];
    assert path[|path| - |ext|..] == base[|base| - |ext|..];
  }

  // ---------------------------------------------------------------------------
  // fileFilter

  /** The extensions the filter accepts, after lower-casing. */
  const ImageExtensions: set<string> := {".jpg", ".jpeg", ".png"}

  const RejectMessage: string := "只接受 JPG/PNG 圖片"

  /** multer's verdict on one file: accept it, or fail the upload with an error. */
  datatype FilterOutcome = Accept | RejectFile(message: string)

  /** `fileFilter`: accept iff the lower-cased extension is `.jpg`, `.jpeg` or `.png`. */
  function FileFilter(originalname: string): (o: FilterOutcome)
    ensures o == Accept <==> Lower(Extname(originalname)) in ImageExtensions
    ensures o.RejectFile? ==> o.message == RejectMessage
  {
    var ext := Lower(Extname(originalname));
    if ext in ImageExtensions then Accept else RejectFile(RejectMessage)
  }

  /** Lower-casing maps only upper-case letters, so `.` and `/` are where they were. */
  lemma LowerKeepsPunctuation(s: string, i: nat)
    requires i < |s|
    ensures Lower(s)[i] == '.' <==> s[i] == '.'
    ensures Lower(s)[i] == '/' <==> s[i] == '/'
  {
  }

  /** The extension of `stem.ext` is `.ext` when `ext` is non-empty and has no `.` or `/`. */
  lemma ExtnameOfSimpleName(stem: string, ext: string)
    requires stem != "" && '/' !in stem
    requires ext != "" && '.' !in ext && '/' !in ext
    ensures Extname(stem + "." + ext) == "." + ext
  {
    var name := stem + "." + ext;
    assert name[|name| - 1] == ext[|ext| - 1];
    assert TrimTrailingSlashes(name) == name;
    assert forall k :: 0 <= k < |name| ==>
      name[k] == if k < |stem| then stem[k] else if k == |stem| then '.' else ext[k - |stem| - 1];
    assert '/' !in name;
    assert LastComponent(name) == name;
    assert name[|stem|] == '.';
    assert forall k :: |stem| < k < |name| ==> name[k] != '.';
    assert LastIndexOf(name, '.') == Some(|stem|);
    assert name != "..";
    assert name[|stem|..] == "." + ext;
  }

  /** The accepted extensions, without their dot, are plain letters. */
  lemma ImageExtensionLetters(low: string)
    requires low in {"jpg", "jpeg", "png"}
    ensures low != "" && '.' !in low && '/' !in low
    ensures "." + low in ImageExtensions
  {
    if low == "jpg" { assert "." + low == ".jpg"; }
    else if low == "jpeg" { assert "." + low == ".jpeg"; }
    else { assert "." + low == ".png"; }
  }

  /**
   * A file whose name is a non-empty stem (free of `/`) followed by `.` and an
   * extension that lower-cases to `jpg`, `jpeg` or `png` is accepted: `A.PNG` is.
   */
  lemma AcceptsImageName(stem: string, ext: string)
    requires stem != "" && '/' !in stem
    requires Lower(ext) in {"jpg", "jpeg", "png"}
    ensures FileFilter(stem + "." + ext) == Accept
  {
    var low := Lower(ext);
    ImageExtensionLetters(low);
    NoPunctuationBeforeLowering(ext);
    ExtnameOfSimpleName(stem, ext);
    LowerAfterDot(ext);
  }

  /** A string whose lower-cased form has no `.` or `/` has none either. */
  lemma NoPunctuationBeforeLowering(s: string)
    requires '.' !in Lower(s) && '/' !in Lower(s)
    ensures '.' !in s && '/' !in s
  {
    forall k | 0 <= k < |s| ensures s[k] != '.' && s[k] != '/' {
      LowerKeepsPunctuation(s, k);
      assert Lower(s)[k] in Lower(s);
    }
  }

  /** Lower-casing leaves a leading `.` in place. */
  lemma LowerAfterDot(s: string)
    ensures Lower("." + s) == "." + Lower(s)
  {
    assert forall k :: 0 <= k < |s| ==> ("." + s)[k + 1] == s[k];
  }

  /** A name whose last component has no `.` is rejected. */
  lemma RejectsNameWithoutDot(name: string)
    requires '.' !in name
    ensures FileFilter(name).RejectFile?
  {
    var base := LastComponent(TrimTrailingSlashes(name));
    assert forall k :: 0 <= k < |base| ==> base[k] in name by {
      forall k | 0 <= k < |base| ensures base[k] in name {
        var t := TrimTrailingSlashes(name);
        assert base[k] == t[|t| - |base| + k];
        assert t[|t| - |base| + k] == name[|t| - |base| + k];
      }
    }
    assert '.' !in base;
  }

  /** A dotfile whose only `.` leads its name, such as `.png` or `.JPG`, is rejected. */
  lemma RejectsDotfile(rest: string)
    requires '.' !in rest && '/' !in rest
    ensures FileFilter("." + rest).RejectFile?
  {
    var name := "." + rest;
    if rest != "" { assert name[|name| - 1] == rest[|rest| - 1]; }
    assert TrimTrailingSlashes(name) == name;
    assert forall k :: 0 <= k < |name| ==> name[k] == if k == 0 then '.' else rest[k - 1];
    assert '/' !in name;
    assert LastComponent(name) == name;
    assert LastIndexOf(name, '.') == Some(0);
  }

  // ---------------------------------------------------------------------------
  // filename

  /** multer's `filename`: `${Date.now()}-${file.originalname}`. */
  function StoredFilename(now: nat, originalname: string): (f: string)
    ensures EndsWith(f, originalname)
    ensures StartsWith(f, Decimal(now) + "-")
  {
    Decimal(now) + "-" + originalname
  }

  /** The position of the first `c` in `s`. */
  function FirstIndexOf(s: string, c: char): (r: Option<nat>)
    ensures r.Some? ==> r.value < |s| && s[r.value] == c && c !in s[..r.value]
    ensures r.None? <==> c !in s
  {
    if |s| == 0 then None
    else if s[0] == c then Some(0)
    else
      match FirstIndexOf(s[1..], c)
      case None => None
      case Some(i) =>
        assert s[..i + 1] == [s[0]] + s[1..][..i];
        Some(i + 1)
  }

  /**
   * Reads a stored file name back into its timestamp and original name: the
   * digits before the first `-` and everything after it.
   */
  function ParseStoredFilename(f: string): (r: Option<(nat, string)>)
  {
    match FirstIndexOf(f, '-')
    case None => None
    case Some(i) =>
      if i > 0 && forall k :: 0 <= k < i ==> IsDigit(f[k]) then
        Some((DecimalValue(f[..i]), f[i + 1..]))
      else None
  }

  /** A stored file name determines the timestamp and the original name it was made from. */
  lemma StoredFilenameRoundTrip(now: nat, originalname: string)
    ensures ParseStoredFilename(StoredFilename(now, originalname)) == Some((now, originalname))
  {
    var digits := Decimal(now);
    var f := StoredFilename(now, originalname);
    assert forall k :: 0 <= k < |digits| ==> f[k] == digits[k];
    assert '-' !in digits;
    assert f[..|digits|] == digits;
    assert f[|digits|] == '-';
    assert FirstIndexOf(f, '-') == Some(|digits|);
    assert f[|digits| + 1..] == originalname;
    DecimalRoundTrip(now);
  }
}

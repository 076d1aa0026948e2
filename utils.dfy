/** File-name and path helpers and the blob store (src/utils.py).

    Paths are strings with '/' as separator. `GetFileExt` follows POSIX
    `os.path.splitext`; `PathName`, `PathSuffix`, `PathStem` and `WithSuffix` follow
    `pathlib.PurePath.name`, `.suffix`, `.stem` and `.with_suffix`. The two
    libraries disagree on names such as "a." or "..a", and the lemmas at the end say
    when a served path and a converted path agree. */
module Utils {
  import opened Wrappers

  newtype byte = b: int | 0 <= b < 256
  type Bytes = seq<byte>

  // ---------------------------------------------------------------------------
  // Searching a string from the end (`str.rfind`)

  /** The index of the last `c` in `s`, or -1 when `s` has none. */
  function LastIndexOf(s: string, c: char): (r: int)
    ensures -1 <= r < |s|
    ensures r >= 0 ==> s[r] == c
    ensures forall k :: r < k < |s| ==> s[k] != c
  {
    if |s| == 0 then -1
    else if s[|s| - 1] == c then |s| - 1
    else LastIndexOf(s[..|s| - 1], c)
  }

  /** The contract of `LastIndexOf` pins its value down. */
  lemma LastIndexOfIs(s: string, c: char, i: int)
    requires -1 <= i < |s|
    requires i >= 0 ==> s[i] == c
    requires forall k :: i < k < |s| ==> s[k] != c
    ensures LastIndexOf(s, c) == i
  {
  }

  /** Where the last `c` of `s + t` lies: inside `t` when `t` has one, otherwise in `s`. */
  lemma LastIndexOfAppend(s: string, t: string, c: char)
    ensures c in t ==> LastIndexOf(s + t, c) == |s| + LastIndexOf(t, c)
    ensures c !in t ==> LastIndexOf(s + t, c) == LastIndexOf(s, c)
  {
    if c in t {
      LastIndexOfInTail(s, t, c);
    } else {
      LastIndexOfNotInTail(s, t, c);
    }
  }

  lemma LastIndexOfInTail(s: string, t: string, c: char)
    requires c in t
    ensures LastIndexOf(s + t, c) == |s| + LastIndexOf(t, c)
  {
    var j := LastIndexOf(t, c);
    var k :| 0 <= k < |t| && t[k] == c;
    assert j >= k;
    assert (s + t)[|s| + j] == t[j];
    forall m | |s| + j < m < |s + t| ensures (s + t)[m] != c {
      assert (s + t)[m] == t[m - |s|];
    }
    LastIndexOfIs(s + t, c, |s| + j);
  }

  lemma LastIndexOfNotInTail(s: string, t: string, c: char)
    requires c !in t
    ensures LastIndexOf(s + t, c) == LastIndexOf(s, c)
  {
    var i := LastIndexOf(s, c);
    assert i >= 0 ==> (s + t)[i] == s[i];
    forall m | i < m < |s + t| ensures (s + t)[m] != c {
      if m >= |s| {
        assert (s + t)[m] == t[m - |s|];
        assert t[m - |s|] in t;
      } else {
        assert (s + t)[m] == s[m];
      }
    }
    LastIndexOfIs(s + t, c, i);
  }

  lemma LastIndexOfAbsent(s: string, c: char)
    requires c !in s
    ensures LastIndexOf(s, c) == -1
  {
  }

  // ---------------------------------------------------------------------------
  // os.path.splitext and the two helpers built on it

  predicate AllDots(s: string) {
    forall k :: 0 <= k < |s| ==> s[k] == '.'
  }

  /** Where `os.path.splitext` cuts `p`: at the last dot, provided that dot comes after
      the last '/' and the base name has a character other than '.' before it. */
  function ExtStart(p: string): (r: Option<nat>)
    ensures r.Some? ==> r.value < |p| && p[r.value] == '.'
  {
    var sep := LastIndexOf(p, '/');
    var dot := LastIndexOf(p, '.');
    if dot > sep && !AllDots(p[sep + 1 .. dot]) then Some(dot) else None
  }

  /** `get_file_ext`: the extension `os.path.splitext` reports, "" when there is none. */
  function GetFileExt(p: string): (r: string)
    ensures |r| <= |p| && r == p[|p| - |r|..]
    ensures r != "" ==> r[0] == '.'
    ensures forall k :: 0 < k < |r| ==> r[k] != '.' && r[k] != '/'
  {
    match ExtStart(p)
    case Some(i) => p[i..]
    case None => ""
  }

  /** No '/' in `p[j..i]`: positions `j` to `i` lie in one path component. */
  predicate OneComponent(p: string, j: int, i: int)
    requires 0 <= j <= i <= |p|
  {
    forall k :: j <= k < i ==> p[k] != '/'
  }

  /** An independent description of a splitext extension starting at index `i`: a dot
      with no dot and no '/' after it, and before it, in the same path component, some
      character that is not a dot. */
  predicate IsExtAt(p: string, i: int) {
    && 0 <= i < |p|
    && p[i] == '.'
    && (forall k :: i < k < |p| ==> p[k] != '.' && p[k] != '/')
    && (exists j :: 0 <= j < i && p[j] != '.' && OneComponent(p, j, i))
  }

  /** What a non-empty extension tells about the last '/' and the last '.'. */
  lemma ExtStartParts(p: string)
    requires GetFileExt(p) != ""
    ensures LastIndexOf(p, '/') < LastIndexOf(p, '.')
    ensures |p| - |GetFileExt(p)| == LastIndexOf(p, '.')
    ensures !AllDots(p[LastIndexOf(p, '/') + 1 .. LastIndexOf(p, '.')])
  {
  }

  /** A non-empty extension is a suffix described by `IsExtAt`. */
  lemma GetFileExtSound(p: string)
    requires GetFileExt(p) != ""
    ensures IsExtAt(p, |p| - |GetFileExt(p)|)
  {
    ExtStartParts(p);
    var sep := LastIndexOf(p, '/');
    var dot := LastIndexOf(p, '.');
    var j := NonDotAfter(p, sep, dot);
    IsExtAtIntro(p, j, dot);
  }

  /** A non-dot position between the last '/' and the last '.'. */
  lemma NonDotAfter(p: string, sep: int, dot: int) returns (j: int)
    requires sep == LastIndexOf(p, '/') && dot == LastIndexOf(p, '.') && sep < dot
    requires !AllDots(p[sep + 1 .. dot])
    ensures sep < j < dot && p[j] != '.'
  {
    var seg := p[sep + 1 .. dot];
    var m :| 0 <= m < |seg| && seg[m] != '.';
    j := sep + 1 + m;
    assert p[j] == seg[m];
  }

  lemma IsExtAtIntro(p: string, j: int, dot: int)
    requires dot == LastIndexOf(p, '.') && LastIndexOf(p, '/') < j < dot && p[j] != '.'
    ensures IsExtAt(p, dot)
  {
    assert OneComponent(p, j, dot);
  }

  lemma SepBefore(p: string, j: int, i: int)
    requires 0 <= j < i < |p| && p[i] == '.' && OneComponent(p, j, i)
    requires forall k :: i < k < |p| ==> p[k] != '/'
    ensures LastIndexOf(p, '/') < j
  {
  }

  lemma ExtStartAt(p: string, i: int)
    requires 0 <= i < |p|
    requires LastIndexOf(p, '.') == i
    requires LastIndexOf(p, '/') < i
    requires !AllDots(p[LastIndexOf(p, '/') + 1 .. i])
    ensures GetFileExt(p) == p[i..]
  {
  }

  /** Any position described by `IsExtAt` is where `GetFileExt` cuts. */
  lemma GetFileExtComplete(p: string, i: int)
    requires IsExtAt(p, i)
    ensures GetFileExt(p) == p[i..]
  {
    ExtCutFacts(p, i);
    ExtStartAt(p, i);
  }

  /** At an `IsExtAt` position, the last dot, the last '/' and the base name before the
      dot are what `ExtStart` looks at. */
  lemma ExtCutFacts(p: string, i: int)
    requires IsExtAt(p, i)
    ensures LastIndexOf(p, '.') == i
    ensures LastIndexOf(p, '/') < i
    ensures !AllDots(p[LastIndexOf(p, '/') + 1 .. i])
  {
    LastIndexOfIs(p, '.', i);
    var j := NonDotBefore(p, i);
    SliceNotAllDots(p, LastIndexOf(p, '/') + 1, j, i);
  }

  /** The non-dot character `IsExtAt` asks for lies after the last '/'. */
  lemma NonDotBefore(p: string, i: int) returns (j: int)
    requires IsExtAt(p, i)
    ensures LastIndexOf(p, '/') < j < i && p[j] != '.'
  {
    j :| 0 <= j < i && p[j] != '.' && OneComponent(p, j, i);
    SepBefore(p, j, i);
  }

  lemma SliceNotAllDots(p: string, a: int, j: int, b: int)
    requires 0 <= a <= j < b <= |p| && p[j] != '.'
    ensures !AllDots(p[a..b])
  {
    assert p[a..b][j - a] == p[j];
  }

  /** Python's `s[:stop]`: a negative bound counts from the end, and `-0` is `0`. */
  function PyPrefix(s: string, stop: int): (r: string)
    ensures |r| <= |s| && r == s[..|r|]
    ensures stop >= 0 ==> |r| == (if stop < |s| then stop else |s|)
    ensures stop < 0 ==> |r| == (if -stop <= |s| then |s| + stop else 0)
  {
    if stop >= 0 then (if stop < |s| then s[..stop] else s)
    else if -stop <= |s| then s[..|s| + stop]
    else ""
  }

  /** `filename_without_ext`: `filename[:-len(ext)]`. With an extension it is the part
      before it; without one the slice bound is `-0`, so the result is empty. */
  function FilenameWithoutExt(f: string): (r: string)
    ensures GetFileExt(f) != "" ==> r + GetFileExt(f) == f
    ensures GetFileExt(f) != "" ==> |r| == |f| - |GetFileExt(f)|
    ensures GetFileExt(f) == "" ==> r == ""
  {
    var e := GetFileExt(f);
    PyPrefixDropsSuffix(f, e);
    PyPrefix(f, -|e|)
  }

  /** Slicing off a suffix with `[:-len(e)]`: what is left followed by the suffix is the
      whole string, except that an empty suffix gives `[:-0]`, the empty string. */
  lemma PyPrefixDropsSuffix(f: string, e: string)
    requires |e| <= |f| && e == f[|f| - |e|..]
    ensures e != "" ==> PyPrefix(f, -|e|) + e == f && |PyPrefix(f, -|e|)| == |f| - |e|
    ensures e == "" ==> PyPrefix(f, -|e|) == ""
  {
    if e != "" {
      assert PyPrefix(f, -|e|) == f[..|f| - |e|];
      assert f == f[..|f| - |e|] + f[|f| - |e|..];
    }
  }

  // ---------------------------------------------------------------------------
  // pathlib

  /** `Path(dir) / name` for a relative `name`; an empty name leaves the path as it is. */
  function Join(dir: string, name: string): string {
    if name == "" then dir else dir + "/" + name
  }

  /** `PurePath.name`: the last component. */
  function PathName(p: string): (r: string)
    ensures |r| <= |p| && r == p[|p| - |r|..]
    ensures forall k :: 0 <= k < |r| ==> r[k] != '/'
    ensures |r| < |p| ==> p[|p| - |r| - 1] == '/'
  {
    p[LastIndexOf(p, '/') + 1..]
  }

  /** `PurePath.suffix` of a name: from its last dot, unless that dot is the first or the
      last character. */
  function PathSuffix(name: string): (r: string)
    ensures |r| <= |name| && r == name[|name| - |r|..]
    ensures r != "" ==> 0 < |name| - |r| && |r| >= 2 && r[0] == '.'
    ensures forall k :: 0 < k < |r| ==> r[k] != '.'
  {
    var i := LastIndexOf(name, '.');
    if 0 < i < |name| - 1 then name[i..] else ""
  }

  /** Conversely, a dot that is neither the first nor the last character, with no dot
      after it, starts the suffix. */
  lemma PathSuffixComplete(name: string, i: int)
    requires 0 < i < |name| - 1 && name[i] == '.'
    requires forall k :: i < k < |name| ==> name[k] != '.'
    ensures PathSuffix(name) == name[i..]
  {
    LastIndexOfIs(name, '.', i);
  }

  /** `PurePath.stem`: the name without its suffix; non-empty when the name is. */
  function PathStem(name: string): (r: string)
    ensures r + PathSuffix(name) == name
    ensures name != "" ==> r != ""
  {
    var suffix := PathSuffix(name);
    name[..|name| - |suffix|]
  }

  /** `PurePath.with_suffix(suffix)`: the last component's suffix replaced; a path with an
      empty name has none to replace (ValueError). For a suffix without '/', the result's
      last component is the old stem plus the suffix, and what precedes it is unchanged. */
  function WithSuffix(p: string, suffix: string): (r: Option<string>)
    ensures r.None? <==> PathName(p) == ""
    ensures r.Some? && '/' !in suffix ==>
      && PathName(r.value) == PathStem(PathName(p)) + suffix
      && r.value[..|r.value| - |PathName(r.value)|] == p[..|p| - |PathName(p)|]
  {
    var name := PathName(p);
    if name == "" then None
    else
      ReplacedName(p[..|p| - |name|], name, suffix);
      Some(p[..|p| - |name|] + PathStem(name) + suffix)
  }

  /** Replacing the suffix of a '/'-free name after a directory prefix touches only the name. */
  lemma ReplacedName(dir: string, name: string, suffix: string)
    requires dir == "" || dir[|dir| - 1] == '/'
    requires forall k :: 0 <= k < |name| ==> name[k] != '/'
    ensures var q := dir + PathStem(name) + suffix;
      '/' !in suffix ==>
        && PathName(q) == PathStem(name) + suffix
        && q[..|q| - |PathName(q)|] == dir
  {
    if '/' !in suffix {
      var stem := PathStem(name);
      var b := stem + suffix;
      assert stem == name[..|stem|];
      PrefixHasNoSep(name, |stem|);
      assert '/' !in b;
      ConcatAssoc(dir, stem, suffix);
      NameAfterDir(dir, b);
      assert (dir + b)[..|dir|] == dir;
    }
  }

  const WebpSuffix: string := ".webp"

  /** The path `convert_to_webp` writes to for an input path. */
  function WebpPath(p: string): Option<string> {
    WithSuffix(p, WebpSuffix)
  }

  lemma WebpSuffixFacts()
    ensures LastIndexOf(WebpSuffix, '.') == 0
    ensures '/' !in WebpSuffix
  {
    LastIndexOfIs(WebpSuffix, '.', 0);
  }

  lemma ConcatAssoc(a: string, b: string, c: string)
    ensures a + b + c == a + (b + c)
  {
  }

  /** A directory prefix (empty, or ending in '/') followed by a '/'-free name. */
  lemma NameAfterDir(dir: string, b: string)
    requires dir == "" || dir[|dir| - 1] == '/'
    requires '/' !in b
    ensures PathName(dir + b) == b
  {
    LastIndexOfNotInTail(dir, b, '/');
    if dir != "" {
      LastIndexOfIs(dir, '/', |dir| - 1);
    }
    assert LastIndexOf(dir + b, '/') + 1 == |dir|;
    assert (dir + b)[|dir|..] == b;
  }

  /** A non-empty stem followed by ".webp" has ".webp" as its suffix. */
  lemma WebpNameSplits(stem: string)
    requires stem != ""
    ensures PathSuffix(stem + WebpSuffix) == WebpSuffix
    ensures PathStem(stem + WebpSuffix) == stem
  {
    WebpSuffixFacts();
    LastIndexOfAppend(stem, WebpSuffix, '.');
    assert WebpSuffix[0] in WebpSuffix;
    assert (stem + WebpSuffix)[|stem|..] == WebpSuffix;
  }

  /** A prefix of a '/'-free name is '/'-free. */
  lemma PrefixHasNoSep(name: string, n: nat)
    requires n <= |name|
    requires forall k :: 0 <= k < |name| ==> name[k] != '/'
    ensures '/' !in name[..n]
  {
  }

  /** The converted path keeps the directory, keeps a non-empty stem and ends in ".webp",
      and converting it again maps it to itself. */
  lemma {:induction false} WebpPathIdempotent(p: string)
    requires WebpPath(p).Some?
    ensures var q := WebpPath(p).value;
      && PathName(q) == PathStem(PathName(p)) + WebpSuffix
      && PathSuffix(PathName(q)) == WebpSuffix
      && WebpPath(q) == Some(q)
  {
    var q := WebpPath(p).value;
    var stem := PathStem(PathName(p));
    WebpSuffixFacts();
    assert PathName(q) == stem + WebpSuffix;
    WebpNameSplits(stem);
    WebpFixedPoint(q, stem);
  }

  /** A path whose name is a non-empty stem followed by ".webp" is its own WebP path. */
  lemma WebpFixedPoint(q: string, stem: string)
    requires stem != "" && PathName(q) == stem + WebpSuffix
    ensures WebpPath(q) == Some(q)
  {
    WebpNameSplits(stem);
    var dir := q[..|q| - |PathName(q)|];
    assert WebpPath(q) == Some(dir + stem + WebpSuffix);
    assert q == dir + PathName(q);
    ConcatAssoc(dir, stem, WebpSuffix);
  }

  /** The path `get_image` reads for a stored name: `str(Path(storage) / name) + '.webp'`. */
  function ServedPath(storage: string, name: string): string {
    Join(storage, name) + WebpSuffix
  }

  /** For an upload name without '/' on which splitext and pathlib both see an extension
      (such as "cat.png"), the path served for the stored name is the path the
      conversion writes. */
  lemma {:induction false} ServedPathMatchesConverted(storage: string, f: string)
    requires '/' !in f
    requires GetFileExt(f) != "" && PathSuffix(f) != ""
    ensures WebpPath(Join(storage, f)) == Some(ServedPath(storage, FilenameWithoutExt(f)))
  {
    var dir := storage + "/";
    var p := dir + f;
    assert Join(storage, f) == p;
    NameAfterDir(dir, f);
    assert p[..|p| - |f|] == dir;
    var stem := SplitextStemIsPathStem(f);
    ConcatAssoc(dir, stem, WebpSuffix);
    ConcatAssoc(storage, "/", stem);
  }

  /** On a '/'-free name where both libraries see an extension, the two stems agree. */
  lemma SplitextStemIsPathStem(f: string) returns (stem: string)
    requires '/' !in f
    requires GetFileExt(f) != "" && PathSuffix(f) != ""
    ensures stem == FilenameWithoutExt(f) == PathStem(f) && stem != ""
  {
    LastIndexOfAbsent(f, '/');
    var dot := LastIndexOf(f, '.');
    assert ExtStart(f) == Some(dot);
    assert GetFileExt(f) == f[dot..] == PathSuffix(f);
    stem := FilenameWithoutExt(f);
    assert stem == f[..dot] == PathStem(f);
  }

  /** An upload name that splitext gives no extension (such as "cat" or ".bashrc") is
      stored under the empty name, whose served path is the storage directory plus
      ".webp"; the conversion never writes there. */
  lemma {:induction false} ExtensionlessNameNeverServed(storage: string, f: string)
    requires f != "" && GetFileExt(f) == ""
    ensures FilenameWithoutExt(f) == ""
    ensures ServedPath(storage, FilenameWithoutExt(f)) == storage + WebpSuffix
    ensures WebpPath(Join(storage, f)) != Some(ServedPath(storage, FilenameWithoutExt(f)))
  {
    var p := storage + "/" + f;
    assert Join(storage, f) == p;
    var sep := LastIndexOf(p, '/');
    assert p[|storage|] == '/';
    assert sep >= |storage|;
    var name := PathName(p);
    if name != "" {
      assert |WebpPath(p).value| >= sep + 1 + |PathStem(name)| + |WebpSuffix|;
      assert |WebpPath(p).value| > |storage + WebpSuffix|;
    }
  }

  /** An upload name ending in '.' (such as "a."): splitext takes the final dot as the
      extension, or sees none, so the stored name loses that dot or is empty; pathlib
      sees no suffix, so the conversion keeps the whole name and writes a path one
      character longer than any the stored name is served from. */
  lemma {:induction false} TrailingDotNeverServed(storage: string, f: string)
    requires f != "" && f[|f| - 1] == '.'
    ensures GetFileExt(f) == "" || GetFileExt(f) == "."
    ensures GetFileExt(f) == "." ==> FilenameWithoutExt(f) == f[..|f| - 1]
    ensures WebpPath(Join(storage, f)) != Some(ServedPath(storage, FilenameWithoutExt(f)))
  {
    TrailingDotStored(f);
    var p := Join(storage, f);
    assert p == storage + "/" + f;
    assert |p| == |storage| + 1 + |f| && p[|p| - 1] == '.';
    if PathName(p) != "" {
      TrailingDotConverted(p);
    }
    ServedLength(storage, FilenameWithoutExt(f));
  }

  /** splitext's extension of a name ending in '.' is that dot or nothing, and the stored
      name is shorter than the upload name. */
  lemma TrailingDotStored(f: string)
    requires f != "" && f[|f| - 1] == '.'
    ensures GetFileExt(f) == "" || GetFileExt(f) == "."
    ensures GetFileExt(f) == "." ==> FilenameWithoutExt(f) == f[..|f| - 1]
    ensures |FilenameWithoutExt(f)| < |f|
  {
    var e := GetFileExt(f);
    if e != "" {
      assert e[|e| - 1] == f[|f| - 1] == '.';
      assert |e| == 1;
      var stem := FilenameWithoutExt(f);
      assert stem + e == f;
      assert stem == (stem + e)[..|f| - 1];
    }
  }

  /** The length of a served path. */
  lemma ServedLength(storage: string, name: string)
    ensures |ServedPath(storage, name)| <= |storage| + 1 + |name| + |WebpSuffix|
  {
  }

  /** pathlib sees no suffix on a name ending in '.', so the converted path only gains
      ".webp". */
  lemma TrailingDotConverted(p: string)
    requires p != "" && p[|p| - 1] == '.' && PathName(p) != ""
    ensures |WebpPath(p).value| == |p| + |WebpSuffix|
  {
    var name := PathName(p);
    assert name[|name| - 1] == '.';
    LastIndexOfIs(name, '.', |name| - 1);
    assert PathSuffix(name) == "";
    WebpSuffixFacts();
  }

  // ---------------------------------------------------------------------------
  // The blob store

  /** A stored file: uploaded bytes, or the WebP re-encoding of another file (the codec
      itself is not modelled, only which file it was made from). */
  datatype Blob = Raw(bytes: Bytes) | Webp(source: Blob)

  /** The files after `save_file(path, content)`: `path` holds exactly `content`, whatever
      was there before, and every other path is untouched. */
  function AfterSave(files: map<string, Blob>, path: string, content: Bytes): (r: map<string, Blob>)
    ensures path in r && r[path] == Raw(content)
    ensures r.Keys == files.Keys + {path}
    ensures forall q :: q in files && q != path ==> r[q] == files[q]
  {
    files[path := Raw(content)]
  }

  /** Whether `convert_to_webp(path)` gets to write its output: the path has a name, the
      file exists, and the image library decodes it. */
  predicate ConvertSucceeds(files: map<string, Blob>, path: string, decodes: bool) {
    WebpPath(path).Some? && path in files && decodes
  }

  /** The files after `convert_to_webp(path)`: on success the WebP path holds the
      re-encoding of the file at `path` and nothing else changes; on failure nothing
      changes at all. */
  function AfterConvert(files: map<string, Blob>, path: string, decodes: bool): (r: map<string, Blob>)
    ensures ConvertSucceeds(files, path, decodes) ==>
      var w := WebpPath(path).value;
      && w in r && r[w] == Webp(files[path])
      && r.Keys == files.Keys + {w}
      && forall q :: q in files && q != w ==> r[q] == files[q]
    ensures !ConvertSucceeds(files, path, decodes) ==> r == files
  {
    if ConvertSucceeds(files, path, decodes) then files[WebpPath(path).value := Webp(files[path])]
    else files
  }

  /** Re-running a conversion on an unchanged input rewrites the same output with the
      same content, unless the input already is its own output (a ".webp" upload). */
  lemma ConvertRerunIsIdempotent(files: map<string, Blob>, path: string)
    requires WebpPath(path) != Some(path)
    ensures AfterConvert(AfterConvert(files, path, true), path, true) == AfterConvert(files, path, true)
  {
  }

  /** The image directory as the handlers see it; `convert_to_webp` and `save_file` are
      the only writers. */
  class BlobStore {
    var files: map<string, Blob>

    constructor (files: map<string, Blob>)
      ensures this.files == files
    {
      this.files := files;
    }

    /** `save_file`: write `content` to `path`, replacing any earlier file. */
    method SaveFile(path: string, content: Bytes)
      modifies this
      ensures files == AfterSave(old(files), path, content)
    {
      files := files[path := Raw(content)];
    }

    /** `convert_to_webp`: compute the output path, decode the input (which fails when
      it is missing or `decodes` is false), write the re-encoding, return the output path. */
    method ConvertToWebp(path: string, decodes: bool) returns (out: Option<string>)
      modifies this
      ensures files == AfterConvert(old(files), path, decodes)
      ensures out.Some? <==> ConvertSucceeds(old(files), path, decodes)
      ensures out.Some? ==> out == WebpPath(path)
    {
      var webp := WebpPath(path);
      if webp.None? || path !in files || !decodes {
        return None;
      }
      files := files[webp.value := Webp(files[path])];
      out := webp;
    }
  }
}

/**
 * The path helpers that glsl2header.c and obj2header.c both define, with
 * identical bodies: `FileExt`, `RemoveExt`, `FileName`, the loop that turns
 * every '.' of the output name into '_', and the `strncmp` extension test.
 * A C string is modelled as the characters before its terminating NUL; a
 * `NULL` return is `None`.
 */
module CPath {
  import opened Wrappers
  import Text

  /** `strrchr(s, c)`: the index of the last `c` in `s`. */
  function LastIndex(s: string, c: char): (r: Option<nat>)
    ensures r.None? <==> c !in s
    ensures r.Some? ==> r.value < |s| && s[r.value] == c && c !in s[r.value + 1..]
    decreases |s|
  {
    if s == [] then None
    else if s[|s| - 1] == c then Some(|s| - 1)
    else
      var r := LastIndex(s[..|s| - 1], c);
      assert s == s[..|s| - 1] + [s[|s| - 1]];
      r
  }

  /**
   * `FileExt`: the text after the last '.', or `None` when the path has no
   * '.' or its last '.' is its first character.
   */
  function FileExt(path: string): (r: Option<string>)
    ensures r.None? <==> forall i :: 0 < i < |path| ==> path[i] != '.'
    ensures r.Some? ==>
              var k := |path| - |r.value| - 1;
              0 < k && path[k] == '.' && path[k + 1..] == r.value && '.' !in r.value
  {
    match LastIndex(path, '.')
    case None => None
    case Some(i) =>
      if i == 0 then
        assert forall j :: 0 < j < |path| ==> path[j] == path[1..][j - 1];
        None
      else
        assert path[i] == '.';
        Some(path[i + 1..])
  }

  /**
   * `RemoveExt`: the text before the last '.' (the C code writes a NUL over
   * that '.'), or `None` when the path has no '.'.
   */
  function RemoveExt(path: string): (r: Option<string>)
    ensures r.None? <==> '.' !in path
    ensures r.Some? ==>
              && |r.value| < |path|
              && path[..|r.value|] == r.value
              && path[|r.value|] == '.'
              && '.' !in path[|r.value| + 1..]
  {
    match LastIndex(path, '.')
    case None => None
    case Some(i) => Some(path[..i])
  }

  /** The extension and the stem of a path put back together give the path. */
  lemma ExtAndStemReassemble(path: string)
    requires FileExt(path).Some?
    ensures RemoveExt(path).Some?
    ensures RemoveExt(path).value + "." + FileExt(path).value == path
  {
    var e := FileExt(path).value;
    var k := |path| - |e| - 1;
    assert path[k] == '.';
    assert path == path[..k] + [path[k]] + path[k + 1..];
  }

  /**
   * One pass of the `do ... while` loop in `FileName`, on the suffix that
   * starts at `start`: `tmp` is its first '/', `l = strlen(tmp) + 1`, and the
   * new start `strlen(path) - l + 2` lands just past that '/'.
   */
  function SkipPastSlash(path: string, start: nat): (k: nat)
    requires start <= |path| && '/' in path[start..]
    ensures start < k <= |path| && path[k - 1] == '/'
    ensures '/' !in path[start..k - 1]
  {
    var tail := path[start..];
    assert tail[..|tail|] == tail;
    var j := Text.FirstIndex(tail, '/');
    assert path[start..start + j] == tail[..j];
    var l := (|tail| - j) + 1;
    start + (|tail| - l + 2)
  }

  /** The `do ... while` loop: the start of the text after the last '/'. */
  function SlashLoop(path: string, start: nat): (k: nat)
    requires start <= |path| && '/' in path[start..]
    ensures start < k <= |path| && path[k - 1] == '/' && '/' !in path[k..]
    decreases |path| - start
  {
    var k := SkipPastSlash(path, start);
    if '/' in path[k..] then SlashLoop(path, k) else k
  }

  /** The text the loop of `FileName` leaves: a '/'-free suffix that follows a '/'. */
  function AfterSlashes(path: string): (r: string)
    requires '/' in path
    ensures |r| < |path| && path[|path| - |r|..] == r
    ensures path[|path| - |r| - 1] == '/' && '/' !in r
  {
    assert path[0..] == path;
    path[SlashLoop(path, 0)..]
  }

  /** A '/'-free text after a '/' is what the loop of `FileName` leaves. */
  lemma AfterLastSlash(dir: string, seg: string)
    requires '/' !in seg
    ensures '/' in dir + "/" + seg
    ensures AfterSlashes(dir + "/" + seg) == seg
  {
    var path := dir + "/" + seg;
    assert path[|dir|] == '/';
    assert path[|path| - |seg|..] == seg;
  }

  /** The stem `RemoveExt` leaves of a '/'-free segment is '/'-free and followed by its '.'. */
  lemma StemOfSegment(a: string)
    requires '/' !in a && RemoveExt(a).Some?
    ensures '/' !in RemoveExt(a).value
    ensures |RemoveExt(a).value| < |a| && a[..|RemoveExt(a).value| + 1] == RemoveExt(a).value + "."
  {
    var stem := RemoveExt(a).value;
    assert a[..|stem| + 1] == a[..|stem|] + [a[|stem|]];
  }

  /**
   * `FileName`: the last path segment without its extension. The C code
   * reaches `strlen(NULL)` unless the path holds a '/', hence the requires.
   */
  function FileName(path: string): (r: Option<string>)
    requires '/' in path
    ensures r.None? <==> '.' !in AfterSlashes(path)
    ensures r.Some? ==> '/' !in r.value
    ensures r.Some? ==> |r.value| < |AfterSlashes(path)| && AfterSlashes(path)[..|r.value| + 1] == r.value + "."
    ensures r.Some? ==> '.' !in AfterSlashes(path)[|r.value| + 1..]
  {
    var a := AfterSlashes(path);
    if RemoveExt(a).Some? then StemOfSegment(a); RemoveExt(a) else None
  }

  /**
   * The last path segment: the '/'-free suffix that follows the last '/', or
   * the whole path when it has no '/'.
   */
  function LastSegment(path: string): (seg: string)
    ensures |seg| <= |path| && path[|path| - |seg|..] == seg && '/' !in seg
    ensures |seg| == |path| || path[|path| - |seg| - 1] == '/'
  {
    assert path[0..] == path;
    if '/' in path then AfterSlashes(path) else path
  }

  /**
   * `FileName` as evidently intended: a path with no '/' is its own last
   * segment (the C code crashes on it instead). The name is the last segment
   * up to its last '.'.
   */
  function BaseName(path: string): (r: Option<string>)
    ensures r.None? <==> '.' !in LastSegment(path)
    ensures r.Some? ==>
              var seg := LastSegment(path);
              && |r.value| < |seg| && seg[..|r.value|] == r.value
              && seg[|r.value|] == '.' && '.' !in seg[|r.value| + 1..]
    ensures '/' in path ==> r == FileName(path)
  {
    if '/' in path then FileName(path) else RemoveExt(path)
  }

  /** A path segment starts at `k` and begins with `stem` followed by '.'. */
  predicate StemAt(path: string, k: int, stem: string) {
    && 0 <= k && k + |stem| < |path|
    && (k == 0 || path[k - 1] == '/')
    && path[k..k + |stem| + 1] == stem + "."
  }

  /**
   * The corrected name starts the last path segment and is followed by the
   * segment's last '.'.
   */
  lemma BaseNameIsLastSegment(path: string)
    requires BaseName(path).Some?
    ensures '/' !in BaseName(path).value
    ensures var b := BaseName(path).value; var k := |path| - |LastSegment(path)|;
            StemAt(path, k, b) && '.' !in path[k + |b| + 1..]
  {
    var b := BaseName(path).value;
    var seg := LastSegment(path);
    StemInSegment(path, seg, b);
    if '/' in path {
      LastSegmentStem(path, b);
    } else {
      StemOfSegment(path);
      assert path[0..0 + |b| + 1] == path[..|b| + 1];
    }
  }

  /** What follows the stem inside a suffix segment is what follows it in the path. */
  lemma StemInSegment(path: string, seg: string, b: string)
    requires |seg| <= |path| && path[|path| - |seg|..] == seg
    requires |b| < |seg| && '.' !in seg[|b| + 1..]
    ensures '.' !in path[|path| - |seg| + |b| + 1..]
  {
    assert path[|path| - |seg| + |b| + 1..] == seg[|b| + 1..];
  }

  lemma LastSegmentStem(path: string, b: string)
    requires '/' in path && FileName(path) == Some(b)
    ensures StemAt(path, |path| - |AfterSlashes(path)|, b)
  {
    var a := AfterSlashes(path);
    var k := |path| - |a|;
    var n := |b| + 1;
    assert n <= |a| && a[..n] == b + ".";
    assert path[k..] == a;
    PrefixOfSuffix(path, k, n);
    assert path[k..k + n] == b + ".";
    assert k > 0 && path[k - 1] == '/';
  }

  lemma PrefixOfSuffix(s: string, k: nat, n: nat)
    requires k + n <= |s|
    ensures s[k..k + n] == s[k..][..n]
  {
  }

  /** The `for` loop that overwrites every '.' of the output name with '_'. */
  function DotsToUnderscores(name: string): (r: string)
    ensures |r| == |name| && '.' !in r
    ensures forall i :: 0 <= i < |name| ==> r[i] == (if name[i] == '.' then '_' else name[i])
    decreases |name|
  {
    if name == [] then []
    else [if name[0] == '.' then '_' else name[0]] + DotsToUnderscores(name[1..])
  }

  /** `!strncmp(ext, want, |want|)`: the extension starts with `want`. */
  predicate ExtensionStartsWith(ext: string, want: string) {
    |want| <= |ext| && ext[..|want|] == want
  }

  /**
   * Only the first `|want|` characters are compared: any extension that
   * starts with `want` passes, `glslx` for `glsl` included, and nothing else.
   */
  lemma ExtensionPrefixAccepted(want: string, ext: string)
    ensures ExtensionStartsWith(ext, want) <==> exists rest :: ext == want + rest
  {
    if ExtensionStartsWith(ext, want) {
      assert ext == want + ext[|want|..];
    }
  }

  /** A '.'-free extension after a non-empty stem is what `FileExt` finds. */
  lemma FileExtOfDotted(stem: string, ext: string)
    requires |stem| > 0 && '.' !in ext
    ensures FileExt(stem + "." + ext) == Some(ext)
  {
    var path := stem + "." + ext;
    var k := |stem|;
    assert path[k] == '.' && path[k + 1..] == ext;
    LastIndexAt(path, '.', k);
  }

  /**
   * A path `dir/stem.ext`, with a '.'-free extension and no '/' after `dir`,
   * has that extension, holds a '/', and has a '.' in its last segment.
   */
  lemma DottedPath(dir: string, stem: string, ext: string)
    requires |stem| > 0 && '/' !in stem && '/' !in ext && '.' !in ext
    ensures var path := dir + "/" + stem + "." + ext;
            && FileExt(path) == Some(ext)
            && '/' in path && '.' in AfterSlashes(path)
  {
    var seg := stem + "." + ext;
    assert dir + "/" + stem + "." + ext == (dir + "/" + stem) + "." + ext;
    FileExtOfDotted(dir + "/" + stem, ext);
    assert dir + "/" + stem + "." + ext == dir + "/" + seg;
    assert '/' !in seg && seg[|stem|] == '.';
    AfterLastSlash(dir, seg);
  }

  /** An occurrence with none after it is the one `strrchr` finds. */
  lemma {:induction false} LastIndexAt(s: string, c: char, k: nat)
    requires k < |s| && s[k] == c && c !in s[k + 1..]
    ensures LastIndex(s, c) == Some(k)
    decreases |s|
  {
    if k < |s| - 1 {
      var t := s[..|s| - 1];
      assert s[|s| - 1] in s[k + 1..];
      assert s[k + 1..] == t[k + 1..] + [s[|s| - 1]];
      LastIndexAt(t, c, k);
    }
  }

  // ---------------------------------------------------------------------
  // Command-line handling shared by both converters
  // ---------------------------------------------------------------------

  datatype Destination = Stdout | OutFile(path: string)

  datatype Output = Output(dest: Destination, text: string)

  /** Why the program stops without writing a header. */
  datatype Failure =
    | Usage             // wrong argument count
    | BadExtension      // no extension, or one not starting with the wanted letters
    | Missing           // `access` failed, or the input could not be read or parsed
    | NullName          // `FileName` reached `strlen(NULL)`: no '/', or no '.' after the last '/'
    | NotDirective      // glsl2header.c: the first line written does not start with '#'

  /**
   * The checks both converters make, in order, before naming the output: the
   * argument count, the extension prefix `want`, and whether the input could
   * be read (`present`).
   */
  function Precheck(args: seq<string>, present: bool, want: string): (r: Option<Failure>)
    ensures r == Some(Usage) <==> !(|args| == 2 || |args| == 3)
    ensures r.None? <==>
              && (|args| == 2 || |args| == 3)
              && FileExt(args[1]).Some? && ExtensionStartsWith(FileExt(args[1]).value, want)
              && present
    ensures r.Some? ==> r.value == Usage || r.value == BadExtension || r.value == Missing
  {
    if !(|args| == 2 || |args| == 3) then Some(Usage)
    else
      match FileExt(args[1])
      case None => Some(BadExtension)
      case Some(ext) =>
        if !ExtensionStartsWith(ext, want) then Some(BadExtension)
        else if !present then Some(Missing)
        else None
  }

  /** argv[2] names the output file unless it is missing or empty. */
  function DestinationOf(args: seq<string>): (d: Destination)
    requires |args| == 2 || |args| == 3
    ensures d.Stdout? <==> |args| == 2 || args[2] == []
    ensures d.OutFile? ==> d.path == args[|args| - 1]
  {
    if |args| == 3 && args[2] != [] then OutFile(args[2]) else Stdout
  }
}

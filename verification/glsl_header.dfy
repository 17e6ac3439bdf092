/**
 * glsl2header.c: turns a shader file into a C header holding the shader
 * text as one string constant. The file contents, the existence test and
 * the output destination are inputs; the header text is the result.
 */
module GlslHeader {
  import opened Wrappers
  import Text
  import CPath

  // ---------------------------------------------------------------------
  // strtok(data, "\n")
  // ---------------------------------------------------------------------

  /**
   * The C string `ReadFile` hands on: `strtok` and `%s` stop at the first
   * '\0' of the buffer, so whatever follows it is never seen.
   */
  function CText(data: string): (s: string)
    ensures |s| <= |data| && s == data[..|s|] && '\0' !in s
    ensures |s| < |data| ==> data[|s|] == '\0'
  {
    data[..Text.FirstIndex(data, '\0')]
  }

  /** A '\0' hides everything after it, and text without one is seen whole. */
  lemma CTextStopsAtNul(a: string, b: string)
    requires '\0' !in a
    ensures CText(a) == a
    ensures CText(a + "\0" + b) == a
  {
    var s := a + "\0" + b;
    assert s[|a|] == '\0' && s[..|a|] == a;
    assert forall i :: 0 <= i < |a| ==> s[i] == a[i];
  }

  /**
   * The tokens `strtok` returns for the delimiter set {'\n'}: the maximal
   * non-empty runs of non-newline characters, in order. `main` applies it
   * to `CText` of the file.
   */
  function Tokens(data: string): (toks: seq<string>)
    ensures forall t :: t in toks ==> |t| > 0 && '\n' !in t
    decreases |data|
  {
    if data == [] then []
    else if data[0] == '\n' then Tokens(data[1..])
    else
      var k := Text.FirstIndex(data, '\n');
      [data[..k]] + Tokens(data[k..])
  }

  /** The non-empty strings of `parts`, in order. */
  function NonEmpty(parts: seq<string>): (r: seq<string>)
    ensures forall t :: t in r ==> t in parts && |t| > 0
    decreases |parts|
  {
    if parts == [] then []
    else if parts[0] == [] then NonEmpty(parts[1..])
    else [parts[0]] + NonEmpty(parts[1..])
  }

  /** `strtok` tokens are exactly the non-empty pieces of a split on '\n'. */
  lemma {:induction false} TokensAreNonEmptyParts(data: string)
    ensures Tokens(data) == NonEmpty(Text.Split(data, "\n"))
    decreases |data|
  {
    if data == [] {
    } else if data[0] == '\n' {
      TokensAreNonEmptyParts(data[1..]);
      assert data[..1] == "\n";
      var rest := Text.Split(data[1..], "\n");
      assert Text.Split(data, "\n") == [[]] + rest;
      assert ([[]] + rest)[1..] == rest;
    } else {
      var k := Text.FirstIndex(data, '\n');
      Text.SplitCharFirst(data, '\n', k);
      assert "\n" == ['\n'];
      if k == |data| {
        assert data[..k] == data;
        assert data[k..] == [];
      } else {
        TokensAreNonEmptyParts(data[k + 1..]);
        assert data[k..][1..] == data[k + 1..];
        assert Tokens(data[k..]) == Tokens(data[k + 1..]);
        var parts := Text.Split(data, "\n");
        assert parts[1..] == Text.Split(data[k + 1..], "\n");
      }
    }
  }

  // ---------------------------------------------------------------------
  // The line emitter
  // ---------------------------------------------------------------------

  /** A token the emitter skips: every character is a space (a tab is not). */
  predicate Blank(t: string) {
    forall i :: 0 <= i < |t| ==> t[i] == ' '
  }

  /** The tokens the emitter writes out, in input order. */
  function Kept(toks: seq<string>): (r: seq<string>)
    ensures forall t :: t in r ==> t in toks && !Blank(t)
    ensures r == [] <==> forall t :: t in toks ==> Blank(t)
    decreases |toks|
  {
    if toks == [] then []
    else if Blank(toks[0]) then Kept(toks[1..])
    else [toks[0]] + Kept(toks[1..])
  }

  /** Every token that is not blank is kept. */
  lemma {:induction false} KeptComplete(toks: seq<string>, t: string)
    requires t in toks && !Blank(t)
    ensures t in Kept(toks)
    decreases |toks|
  {
    if t != toks[0] {
      assert toks == [toks[0]] + toks[1..];
      KeptComplete(toks[1..], t);
    }
  }

  /** Tokens are kept independently of each other and in input order. */
  lemma {:induction false} KeptAppend(a: seq<string>, b: seq<string>)
    ensures Kept(a + b) == Kept(a) + Kept(b)
    decreases |a|
  {
    if a == [] {
      assert a + b == b;
    } else {
      assert (a + b)[0] == a[0] && (a + b)[1..] == a[1..] + b;
      KeptAppend(a[1..], b);
      if !Blank(a[0]) {
        assert [a[0]] + Kept(a[1..]) + Kept(b) == [a[0]] + (Kept(a[1..]) + Kept(b));
      }
    }
  }

  /**
   * The `while (token)` loop: a kept token is written in double quotes, with
   * the two characters `\n` inside the quotes on the first one only; after it
   * comes "\n" when `strtok` yields another token (kept or not), else ";\n".
   */
  function Body(toks: seq<string>, first: bool): (s: string)
    ensures s == [] <==> forall t :: t in toks ==> Blank(t)
    ensures s != [] ==> s[0] == '"' && s[|s| - 1] == '\n'
    decreases |toks|
  {
    if toks == [] then ""
    else if Blank(toks[0]) then Body(toks[1..], first)
    else
      "\"" + toks[0] + (if first then "\\n" else "") + "\""
      + (if |toks| > 1 then "\n" else ";\n")
      + Body(toks[1..], false)
  }

  /**
   * Reference rendering of a list of lines as a C string constant: each line
   * quoted, the first one carrying the `\n` escape, one line per row, and
   * `;` after the last line only when `terminated`.
   */
  function Quoted(lines: seq<string>, first: bool, terminated: bool): string
    decreases |lines|
  {
    if lines == [] then ""
    else
      "\"" + lines[0] + (if first then "\\n" else "") + "\""
      + (if |lines| == 1 && terminated then ";\n" else "\n")
      + Quoted(lines[1..], false, terminated)
  }

  /** The final token `strtok` returns is not blank, so the emitter writes `;`. */
  predicate EndsKept(toks: seq<string>) {
    |toks| > 0 && !Blank(toks[|toks| - 1])
  }

  /**
   * The emitter writes exactly the kept tokens, quoted, in order, with the
   * escape on the first only, and terminates the constant with `;` iff the
   * final token is not blank.
   */
  lemma {:induction false} BodyQuotesKeptTokens(toks: seq<string>, first: bool)
    ensures Body(toks, first) == Quoted(Kept(toks), first, EndsKept(toks))
    decreases |toks|
  {
    if toks == [] {
    } else {
      var rest := toks[1..];
      BodyQuotesKeptTokens(rest, if Blank(toks[0]) then first else false);
      if Kept(rest) == [] {
        if |rest| > 0 {
          assert rest[|rest| - 1] in rest;
          assert toks[|toks| - 1] == rest[|rest| - 1];
        }
      } else {
        assert |rest| > 0;
        assert toks[|toks| - 1] == rest[|rest| - 1];
      }
      if !Blank(toks[0]) {
        var k := [toks[0]] + Kept(rest);
        assert k[1..] == Kept(rest);
      }
    }
  }

  /** Without blank tokens, every token is written and the constant ends in ";\n". */
  lemma NoBlankTokens(toks: seq<string>)
    requires |toks| > 0 && forall t :: t in toks ==> !Blank(t)
    ensures Body(toks, true) == Quoted(toks, true, true)
  {
    BodyQuotesKeptTokens(toks, true);
    KeptAll(toks);
    assert toks[|toks| - 1] in toks;
  }

  lemma {:induction false} KeptAll(toks: seq<string>)
    requires forall t :: t in toks ==> !Blank(t)
    ensures Kept(toks) == toks
    decreases |toks|
  {
    if toks != [] {
      assert toks[0] in toks;
      assert forall t :: t in toks[1..] ==> t in toks;
      KeptAll(toks[1..]);
      assert toks == [toks[0]] + toks[1..];
    }
  }

  /** The `assert(token[0] == '#')` on the first line written. */
  predicate StartsWithDirective(toks: seq<string>) {
    var k := Kept(toks);
    k == [] || (assert k[0] in k; k[0][0] == '#')
  }

  /**
   * The assertion inspects the first character written inside the quotes of
   * the emitted constant: the `#` assertion holds iff that character is '#' (or
   * nothing is written at all).
   */
  lemma DirectiveIsFirstWritten(toks: seq<string>)
    ensures var s := Body(toks, true);
            StartsWithDirective(toks) <==> s == [] || (|s| > 1 && s[1] == '#')
  {
    BodyQuotesKeptTokens(toks, true);
    var k := Kept(toks);
    if k != [] {
      assert k[0] in k;
      var s := Body(toks, true);
      assert s == "\"" + k[0] + (if true then "\\n" else "") + "\"" + (if |k| == 1 && EndsKept(toks) then ";\n" else "\n") + Quoted(k[1..], false, EndsKept(toks));
      assert s[1] == k[0][0];
    }
  }

  // ---------------------------------------------------------------------
  // The whole program
  // ---------------------------------------------------------------------

  /** The identifier the header uses: the file name with every '.' made '_'. */
  function OutName(path: string): (r: Option<string>)
    requires '/' in path
    ensures r.Some? ==> '.' !in r.value && '/' !in r.value
    ensures r.None? <==> CPath.FileName(path).None?
  {
    match CPath.FileName(path)
    case None => None
    case Some(stem) =>
      var name := CPath.DotsToUnderscores(stem);
      assert forall i :: 0 <= i < |name| ==> name[i] != '/' by {
        forall i | 0 <= i < |name| ensures name[i] != '/' {
          assert stem[i] in stem;
        }
      }
      Some(name)
  }

  /** The include-guard macro; the name sits at a fixed place inside it. */
  function Guard(name: string): (g: string)
    ensures |g| == |name| + 13 && g[8..8 + |name|] == name
  {
    "__GLSL__" + name + "__H__"
  }

  /** Headers generated for different names never share an include guard. */
  lemma GuardDistinct(a: string, b: string)
    requires a != b
    ensures Guard(a) != Guard(b)
  {
  }

  function Prologue(name: string): string {
    "// Generated by glsl2header.c -- https://github.com/takeiteasy/\n"
    + "\n"
    + "#ifndef " + Guard(name) + "\n"
    + "#define " + Guard(name) + "\n"
    + "static const char* shdr_" + name + "_data =\n"
  }

  function Epilogue(name: string): string {
    "#endif // " + Guard(name) + "\n"
  }

  /**
   * `main(argc, argv)`: `args` is argv (program name first), `contents` the
   * file read by `ReadFile` (`None` when `access` or `fopen` fails).
   */
  function Convert(args: seq<string>, contents: Option<string>): (r: Result<CPath.Output, CPath.Failure>)
    ensures r == Err(CPath.Usage) <==> !(|args| == 2 || |args| == 3)
  {
    var failed := CPath.Precheck(args, contents.Some?, "glsl");
    if failed.Some? then Err(failed.value)
    else if '/' !in args[1] then Err(CPath.NullName)
    else
      match OutName(args[1])
      case None => Err(CPath.NullName)
      case Some(name) => Write(args, name, Tokens(CText(contents.value)))
  }

  /**
   * The header for identifier `name`, once the `#` assertion on the first
   * line written has passed.
   */
  function Write(args: seq<string>, name: string, toks: seq<string>): (r: Result<CPath.Output, CPath.Failure>)
    requires |args| == 2 || |args| == 3
    ensures r.Ok? <==> StartsWithDirective(toks)
    ensures r.Err? ==> r.error == CPath.NotDirective
  {
    if !StartsWithDirective(toks) then Err(CPath.NotDirective)
    else Ok(CPath.Output(CPath.DestinationOf(args), Prologue(name) + Body(toks, true) + Epilogue(name)))
  }

  /**
   * A header is written only for a usable `.glsl*` path with a '/' and a '.'
   * in its last segment, and a file that was read; it goes to the chosen
   * destination and holds the kept lines of the file, quoted, between the
   * prologue and the epilogue.
   */
  lemma ConvertWrites(args: seq<string>, contents: Option<string>)
    requires Convert(args, contents).Ok?
    ensures |args| == 2 || |args| == 3
    ensures CPath.FileExt(args[1]).Some? && CPath.ExtensionStartsWith(CPath.FileExt(args[1]).value, "glsl")
    ensures contents.Some? && '/' in args[1] && OutName(args[1]).Some?
    ensures var out := Convert(args, contents).value;
            var name := OutName(args[1]).value;
            var toks := Tokens(CText(contents.value));
            && out.dest == CPath.DestinationOf(args)
            && out.text == Prologue(name) + Quoted(Kept(toks), true, EndsKept(toks)) + Epilogue(name)
    ensures StartsWithDirective(Tokens(CText(contents.value)))
  {
    BodyQuotesKeptTokens(Tokens(CText(contents.value)), true);
  }

  /**
   * Conversely: with two or three arguments, a `glsl*` extension, a file that
   * was read, and a path with a '/' whose last segment holds a '.', the run
   * writes a header iff the first line written is a directive, and stops at
   * the assertion otherwise.
   */
  lemma ConvertAccepts(args: seq<string>, data: string)
    requires |args| == 2 || |args| == 3
    requires CPath.FileExt(args[1]).Some? && CPath.ExtensionStartsWith(CPath.FileExt(args[1]).value, "glsl")
    requires '/' in args[1] && '.' in CPath.AfterSlashes(args[1])
    ensures Convert(args, Some(data)).Ok? <==> StartsWithDirective(Tokens(CText(data)))
    ensures !StartsWithDirective(Tokens(CText(data))) ==> Convert(args, Some(data)) == Err(CPath.NotDirective)
  {
  }

  /**
   * Every extension that starts with `glsl` passes the `strncmp` extension
   * test (glsl2header.c:103), `glslx` among
   * them: `dir/stem.glslx` converts whenever its first kept line is a directive.
   */
  lemma AnyGlslExtension(dir: string, stem: string, rest: string, data: string)
    requires |stem| > 0 && '/' !in stem && '/' !in rest && '.' !in rest
    requires StartsWithDirective(Tokens(CText(data)))
    ensures Convert(["glsl2header", dir + "/" + stem + ".glsl" + rest], Some(data)).Ok?
  {
    var ext := "glsl" + rest;
    var path := dir + "/" + stem + ".glsl" + rest;
    assert path == dir + "/" + stem + "." + ext;
    CPath.DottedPath(dir, stem, ext);
    CPath.ExtensionPrefixAccepted("glsl", ext);
    ConvertAccepts(["glsl2header", path], data);
  }

  /**
   * A shader named without any directory makes `FileName` reach
   * `strlen(NULL)`: the run crashes instead of writing a header.
   */
  lemma BareFileNameCrashes(data: string)
    ensures Convert(["glsl2header", "a.glsl"], Some(data)) == Err(CPath.NullName)
  {
    var p := "a.glsl";
    assert p[1] == '.';
    assert CPath.LastIndex(p, '.') == Some(1);
    assert '/' !in p;
  }

  /** `Convert` with `FileName` replaced by `BaseName`, the evidently intended name. */
  function ConvertIntended(args: seq<string>, contents: Option<string>): (r: Result<CPath.Output, CPath.Failure>)
    ensures r == Err(CPath.Usage) <==> !(|args| == 2 || |args| == 3)
  {
    var failed := CPath.Precheck(args, contents.Some?, "glsl");
    if failed.Some? then Err(failed.value)
    else
      match CPath.BaseName(args[1])
      case None => Err(CPath.NullName)
      case Some(stem) => Write(args, CPath.DotsToUnderscores(stem), Tokens(CText(contents.value)))
  }

  /** Wherever the path holds a '/', the intended program behaves exactly as written. */
  lemma IntendedAgreesWithSlash(args: seq<string>, contents: Option<string>)
    requires (|args| == 2 || |args| == 3) && '/' in args[1]
    ensures ConvertIntended(args, contents) == Convert(args, contents)
  {
    assert CPath.BaseName(args[1]) == CPath.FileName(args[1]);
    match CPath.FileName(args[1])
    case None =>
    case Some(stem) =>
      assert OutName(args[1]) == Some(CPath.DotsToUnderscores(stem));
  }

  /**
   * With the intended base name, every shader named without a directory
   * whose extension passes the `strncmp` extension test (glsl2header.c:103)
   * converts, `a.glsl` among them.
   */
  lemma BareFileNameConvertsWhenIntended(args: seq<string>, data: string)
    requires (|args| == 2 || |args| == 3) && '/' !in args[1]
    requires CPath.FileExt(args[1]).Some? && CPath.ExtensionStartsWith(CPath.FileExt(args[1]).value, "glsl")
    requires StartsWithDirective(Tokens(CText(data)))
    ensures ConvertIntended(args, Some(data)).Ok?
  {
    CPath.ExtAndStemReassemble(args[1]);
  }

  /**
   * The intended base name fails only where the extension check already
   * lets through a name whose last segment has no '.'.
   */
  lemma IntendedNameFailsOnlyWithoutDot(args: seq<string>, contents: Option<string>)
    requires ConvertIntended(args, contents) == Err(CPath.NullName)
    ensures '/' in args[1] && '.' !in CPath.AfterSlashes(args[1])
  {
  }
}

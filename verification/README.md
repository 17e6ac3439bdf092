# takeiteasy/tools: the pure logic of four small tools, in Dafny

This project models the deterministic core of four command-line tools and
proves properties of that model.

- **piddump.c** lists, for every process, its open files, IPv4 sockets,
  pipes and AppleTalk descriptors (`PidDump`, `piddump.dfy`). Every libproc
  answer is an input: the pid list, each descriptor table, and the reply to
  each per-descriptor query. The model covers:
  - the dispatch on descriptor type;
  - the "exact size returned" test;
  - the LISTEN/OPEN decision and the `ntohs` port conversion;
  - the descriptor loop and the pid loop;
  - the exact text of every `printf`/`puts`.
- **glsl2header.c** turns a shader into a C header holding one string
  constant (`GlslHeader`, `glsl_header.dfy`). The model covers:
  - the `strtok` tokens of the file text up to its first '\0';
  - the line emitter (blank lines dropped, the `\n` escape on the first line only, `;` after the final token);
  - the `#` assertion on the first line;
  - the header text.
- **obj2header.c** turns a triangulated OBJ mesh into a C header holding one
  interleaved vertex array (`ObjHeader`, `obj_header.dfy`). The model covers:
  - the interleave loop, both as an imperative array method and as a functional specification;
  - the row printing;
  - the emitted size constants.
- **The path helpers.** `FileExt`, `RemoveExt` and `FileName` appear with
  identical bodies in glsl2header.c and obj2header.c. The model defines them
  once in `CPath` (`cpath.dfy`), together with the `.`→`_` loop, the
  `strncmp` extension test and the command-line outcome.
- **anidb.py** is an AniDB renamer (`Anidb`, `anidb.dfy`). The model covers:
  - `make_map` and the two masks;
  - `config_fields` and `fields`;
  - the rename target built in `work_loop`;
  - the ed2k line filter on standard input and the job it queues;
  - the reply parsing in `send_request`;
  - the session-key check.

Supporting modules:

- `Text` (`text.dfy`) holds Python's `split`, `join` and `replace`, and character removal.
- `Numerals` (`numerals.dfy`) holds printf's `%d`, Python's `int()` and `int(m, 2)`, and `'%0*X'`.
- `Wrappers` (`wrappers.dfy`) holds `Option` and `Result`.

Failures the code handles are modelled as values:

- a `NULL` return is `None`;
- a Python exception (`ValueError`, `KeyError`) is `None`;
- a `BAIL`/`assert` abort is an `Err` of `CPath.Failure`;
- an `exit(EXIT_FAILURE)` is a run whose status is `Failure`.

Two preconditions stand for undefined behaviour rather than a handled
failure: `CPath.FileName` requires a '/' in the path, because the code
reaches `strlen(NULL)` otherwise, and `PidDump.MainRun` requires the filled
byte count to fit the pid buffer.

Three behaviours of piddump.c are easy to misread:

- **A negative descriptor-table size** ends the whole run, not only that pid (piddump.c:17-20).
- **A short vnode-path record** makes the descriptor print nothing at all (piddump.c:35-36).
- **The process header** is printed even when the process-info query failed, because its result is not checked (piddump.c:13-14).

## Model

| member | source | states |
|---|---|---|
| PidDump.Swap16Involution | piddump.c:42-46 | swapping the two bytes of a 16-bit value twice gives it back |
| PidDump.Port | piddump.c:42-46 | `(int)ntohs(v)` of an int field lies in 0..65535 and is 0 exactly when `v` is 0 modulo 2^16 |
| PidDump.PortOfNetworkOrder | piddump.c:42-46 | a port stored in network byte order is read back as that port |
| PidDump.QueryFor | piddump.c:34-58 | at most one query per descriptor, in the order vnode, socket, pipe, then AppleTalk when the descriptor NUMBER equals `PROX_FDTYPE_ATALK` |
| PidDump.Classify | piddump.c:34-61 | a FILE line iff the vnode query returned the full record; LISTEN/OPEN iff the socket query did and the family is AF_INET; PIPE and ATALK likewise; the fd, path, peer and ports are copied through; TCP iff `soi_kind == SOCKINFO_TCP`; LISTEN iff the remote port is 0 |
| PidDump.OnlyIssuedQueryMatters | piddump.c:34-61 | only the answer to the one query issued affects the line, and descriptors the chain does not pick print nothing |
| PidDump.AtalkTestsDescriptorNumber | piddump.c:58-60 | as written, an AppleTalk descriptor numbered 3 prints nothing, while descriptor 0 of an unknown type prints an ATALK line |
| PidDump.QueryForIntended | piddump.c:58 | the corrected dispatch picks the AppleTalk query iff the TYPE is `PROX_FDTYPE_ATALK`, and otherwise agrees with the original |
| PidDump.ClassifyIntended | piddump.c:58-60 | the corrected classification lists an AppleTalk descriptor iff its type is AppleTalk and the reply is complete; it agrees with `Classify` wherever the two dispatches agree |
| PidDump.AtalkListedWhenIntended | piddump.c:58-60 | with the corrected test, AppleTalk descriptor 3 is listed and descriptor 0 of an unknown type is not |
| PidDump.DescriptorLines | piddump.c:33-62 | the descriptor loop prints at most one line per entry and never a header or a FATAL line |
| PidDump.DescriptorLinesAppend | piddump.c:33-62 | the output for a table is the output for any two halves of it, concatenated: entries are handled independently and in table order |
| PidDump.DescriptorLinesStep | piddump.c:33-62 | each further entry appends exactly its own line |
| PidDump.ListDescriptors | piddump.c:33-62 | the loop over `pid_size / PROC_PIDLISTFD_SIZE` entries prints the reference output for the whole table, each entry once, in order |
| PidDump.PidInfo | piddump.c:11-64 | the header `<name>: <pid>` comes first whatever the info query returned; a negative table size or a failed `malloc` prints one FATAL line and exits; otherwise the descriptor lines follow; size 0 prints only the header |
| PidDump.PidInfoHeaders | piddump.c:11-64 | `pid_info` prints exactly one header line, for its own pid |
| PidDump.FirstFatal | piddump.c:17-26 | the index of the first process whose `pid_info` exits: no earlier one does |
| PidDump.RunAll | piddump.c:72-73 | the run over a pid list fails iff some process in it is fatal |
| PidDump.RunAllHeaders | piddump.c:66-76 | the headers printed are the pids in list order, up to and including the first fatal one, or all of them |
| PidDump.RunAllOutputs | piddump.c:72-73 | the run prints exactly the `pid_info` output of each process it reaches, one after another in list order, up to and including the first fatal one, or all of them |
| PidDump.MainRun | piddump.c:66-76 | `main` fails iff a visited process is fatal; it prints exactly the `pid_info` output of each visited pid in turn, up to and including the first fatal one, so one header per such pid |
| PidDump.FatalStopsRun | piddump.c:17-26 | a fatal process at position k fails the run, and at most k + 1 headers are printed |
| PidDump.Render | piddump.c:14-60 | every line but OPEN ends in a newline; OPEN does not |
| PidDump.OpenText | piddump.c:52 | the OPEN text after its tab is non-empty and ends in the last digit of the remote port |
| PidDump.OpenLineHasNoNewline | piddump.c:52 | the OPEN text, TCP or not, holds no newline at all after its leading tab |
| PidDump.OpenRunsIntoNextLine | piddump.c:52 | as written, the line printed after any OPEN line, TCP or not, continues on the same output line |
| PidDump.RenderAll | piddump.c:14-60 | the output is the lines' texts in order, so it holds at least one character per line |
| PidDump.RenderAllSnoc | piddump.c:14-60 | one more line appends exactly its own text to the output |
| PidDump.RenderAllPair | piddump.c:14-60 | two lines print as the first line's text followed by the second's |
| PidDump.RenderAllEnds | piddump.c:14-60 | the whole output ends in a newline iff its last line is not an OPEN line |
| PidDump.RenderIntended | piddump.c:50-52 | the corrected rendering ends every line, OPEN included, in a newline, and changes nothing else |
| CPath.LastIndex | glsl2header.c:49 | `strrchr`: `None` iff the character is absent; otherwise an occurrence with no later one |
| CPath.FileExt | glsl2header.c:48-51 | `None` iff no '.' occurs after the first character; otherwise the '.'-free text after the last '.' |
| CPath.RemoveExt | glsl2header.c:53-58 | `None` iff there is no '.'; otherwise the prefix that the last '.' ends |
| CPath.ExtAndStemReassemble | glsl2header.c:48-58 | stem + "." + extension gives the path back |
| CPath.SkipPastSlash | glsl2header.c:64-66 | one pass of the `do`/`while` loop moves the start just past the NEXT '/': no '/' lies between the old start and the new one |
| CPath.SlashLoop | glsl2header.c:63-67 | the loop ends just past the last '/' |
| CPath.AfterSlashes | glsl2header.c:60-67 | what the loop leaves is a '/'-free suffix that follows a '/' |
| CPath.StemOfSegment | glsl2header.c:53-58 | the stem of a '/'-free segment is '/'-free and is followed by its '.' |
| CPath.FileName | glsl2header.c:60-69 | needs a '/' (the code reaches `strlen(NULL)` otherwise); `None` iff the last segment has no '.'; otherwise a '/'-free stem that starts the last segment and ends at its LAST '.' |
| CPath.AfterLastSlash | glsl2header.c:60-67 | for `dir/seg` with a '/'-free `seg`, the loop leaves exactly `seg`, whatever `dir` holds |
| CPath.LastSegment | glsl2header.c:60-67 | the '/'-free suffix that is either the whole path or follows a '/' |
| CPath.BaseName | glsl2header.c:60-69 | the corrected `FileName`: `None` iff the last segment has no '.'; otherwise the part of the last segment before its last '.'; equal to `FileName` whenever there is a '/' |
| CPath.BaseNameIsLastSegment | glsl2header.c:60-69 | the corrected name is '/'-free, starts the LAST path segment and is followed by that segment's last '.' |
| CPath.StemInSegment | glsl2header.c:53-58 | a '.'-free tail of the last segment is a '.'-free tail of the path |
| CPath.LastSegmentStem | glsl2header.c:60-69 | `FileName` starts right after the last '/' |
| CPath.LastIndexAt | glsl2header.c:49 | `strrchr` finds an occurrence with none after it |
| CPath.FileExtOfDotted | glsl2header.c:48-51 | `stem.ext` with a non-empty stem and a '.'-free `ext` has extension `ext` |
| CPath.ExtensionPrefixAccepted | glsl2header.c:103 | `!strncmp(ext, want, |want|)` holds iff `ext` is `want` followed by any text, so `glslx` passes the `glsl` test |
| CPath.DottedPath | glsl2header.c:48-67 | `dir/stem.ext` has extension `ext`, holds a '/' and a '.' in its last segment |
| CPath.Precheck | glsl2header.c:100-107 | the checks before the name: `Usage` iff the argument count is wrong; passes iff the count is right, the extension starts with the wanted one and the file was read; otherwise `BadExtension` or `Missing` |
| CPath.DestinationOf | glsl2header.c:111-129 | standard output iff there is no third argument or it is empty; otherwise the file named by it |
| CPath.DotsToUnderscores | glsl2header.c:125-127 | same length, no '.', every '.' becomes '_', and every other character is unchanged |
| GlslHeader.CText | glsl2header.c:88-89 | the C string read from the file is the text up to its first '\0', which it does not contain |
| GlslHeader.CTextStopsAtNul | glsl2header.c:136-147 | `strtok` and `%s` never see past a '\0': text after one is dropped, and a file without one is seen whole |
| GlslHeader.Tokens | glsl2header.c:136-153 | the `strtok` tokens are non-empty and newline-free |
| GlslHeader.TokensAreNonEmptyParts | glsl2header.c:136-153 | the `strtok` tokens are exactly the non-empty pieces of a split on '\n', in order; `main` tokenises the '\0'-free `CText` of the file, so this is the whole of `strtok`'s behaviour there |
| GlslHeader.Kept | glsl2header.c:139-146 | only tokens that are not all spaces are kept; none are kept iff every token is blank |
| GlslHeader.KeptComplete | glsl2header.c:139-146 | every token that is not all spaces is kept |
| GlslHeader.KeptAppend | glsl2header.c:138-156 | tokens are kept independently and in order: the kept tokens of two runs are those of the first, then those of the second |
| GlslHeader.Body | glsl2header.c:138-156 | the constant's lines are empty iff every token is blank; otherwise they start with '"' and end in a newline |
| GlslHeader.BodyQuotesKeptTokens | glsl2header.c:138-156 | the emitter writes exactly the kept tokens, quoted, with the `\n` escape on the first only, one per line, and `;` after the last iff the final token is not blank |
| GlslHeader.DirectiveIsFirstWritten | glsl2header.c:147-151 | the `#` assertion holds iff nothing is written or the first written line, after its quote, starts with '#' |
| GlslHeader.NoBlankTokens | glsl2header.c:138-156 | without blank tokens every token is written and the constant ends in ";" |
| GlslHeader.KeptAll | glsl2header.c:139-146 | with no blank token, nothing is dropped |
| GlslHeader.OutName | glsl2header.c:110-127 | the identifier has no '.' and no '/', and it fails iff `FileName` does |
| GlslHeader.Guard | glsl2header.c:132-133 | the include guard holds the name at a fixed offset, 13 characters of decoration around it |
| GlslHeader.GuardDistinct | glsl2header.c:132-133 | different names give different include guards |
| GlslHeader.Write | glsl2header.c:129-157 | writing succeeds iff the first kept token starts with '#'; otherwise the `assert` aborts (`NotDirective`) |
| GlslHeader.Convert | glsl2header.c:99-163 | `Usage` iff the argument count is wrong |
| GlslHeader.ConvertWrites | glsl2header.c:99-163 | a header is written only for a `glsl*` extension, a readable file whose first kept line starts with '#', and a path with a '/' and a '.' in its last segment; it goes to the chosen destination and holds the guard, the kept lines quoted, and the closing guard |
| GlslHeader.ConvertAccepts | glsl2header.c:99-163 | conversely, with a right argument count, a `glsl*` extension and a '/' and '.' in the last segment, a read file converts iff its first kept line starts with '#', and aborts with `NotDirective` otherwise |
| GlslHeader.AnyGlslExtension | glsl2header.c:101-103 | `dir/stem.glsl<rest>` converts for every '.'-free, '/'-free `rest`, `glslx` included |
| GlslHeader.BareFileNameCrashes | glsl2header.c:60-69 | as written, `a.glsl` (no directory) aborts instead of converting |
| GlslHeader.ConvertIntended | glsl2header.c:99-163 | the corrected program uses `BaseName`; `Usage` iff the argument count is wrong |
| GlslHeader.IntendedAgreesWithSlash | glsl2header.c:60-69 | for any path holding a '/', the corrected program behaves exactly as written |
| GlslHeader.BareFileNameConvertsWhenIntended | glsl2header.c:60-69 | with the correction, every directory-less `*.glsl*` name converts when the first kept line is a directive |
| GlslHeader.IntendedNameFailsOnlyWithoutDot | glsl2header.c:60-69 | the corrected name fails only for a path whose last segment after a '/' has no '.' |
| ObjHeader.Record | obj2header.c:115-122 | one corner contributes 8 values |
| ObjHeader.Records | obj2header.c:114-123 | the first k corners fill 8k values |
| ObjHeader.RecordsSlice | obj2header.c:114-123 | the record of corner i sits at slots [8i, 8i+8), whatever follows it |
| ObjHeader.InterleavedSlots | obj2header.c:114-123 | the buffer has 24 slots per face; slots [8i, 8i+3) hold `positions[3p..3p+3)`, [8i+3, 8i+6) hold `normals[3n..3n+3)` and [8i+6, 8i+8) hold `texcoords[2t..2t+2)` |
| ObjHeader.InterleavedRecords | obj2header.c:114-123 | every 8-slot record of the buffer is its corner's record |
| ObjHeader.Copy | obj2header.c:120-122 | `memcpy` writes the piece at the offset and leaves every other slot alone |
| ObjHeader.Pass | obj2header.c:115-122 | the three copies of one pass extend the filled prefix by exactly that corner's record |
| ObjHeader.FillCorner | obj2header.c:115-122 | one pass of the loop extends the filled prefix by one record |
| ObjHeader.Interleave | obj2header.c:111-123 | the array loop fills a buffer of `face_count * 3 * 8` slots equal to the reference interleaving |
| ObjHeader.Rows | obj2header.c:124-125 | printing gives `sizeOfBuffer / 8` rows of 8 values |
| ObjHeader.FlattenRows | obj2header.c:124-125 | the rows read in order are the buffer: each value printed once, in place |
| ObjHeader.Emit | obj2header.c:111-127 | the declared length and `data_size` are the buffer length `face_count * 24`; `face_count` is printed as `face_count * 3`; the rows flatten to the buffer |
| ObjHeader.DeclaredSizes | obj2header.c:111-127 | the printed decimal numbers read back as 24 per face, the buffer length, and 3 per face |
| ObjHeader.Convert | obj2header.c:74-134 | `Usage` iff the argument count is wrong; the `#` check of the shader tool never applies here |
| ObjHeader.ConvertWrites | obj2header.c:74-134 | a header is written only for an `obj*` extension, a parsed mesh, and a path with a '/' and a '.' in its last segment; it renders the interleaved mesh under the sanitised name |
| ObjHeader.ConvertAccepts | obj2header.c:74-134 | conversely, a right argument count, an `obj*` extension, a parsed mesh and a '/' and '.' in the last segment always convert |
| ObjHeader.AnyObjExtension | obj2header.c:76-78 | `dir/stem.obj<rest>` converts for every '.'-free, '/'-free `rest`, `objx` included |
| Anidb.Bits | anidb.py:95 | one character per name, '1' iff that name is in `b`, in the same order |
| Anidb.Pick | anidb.py:97 | picking keeps only names of the list, no more than it has, and keeps every name whose bit is '1' |
| Anidb.Selected | anidb.py:97 | a name is selected iff it is in both lists |
| Anidb.PickBits | anidb.py:95-97 | picking by the membership bits is filtering by membership, with one name per '1' |
| Anidb.MakeMap | anidb.py:94-97 | `None` iff the list is empty (the `ValueError` of `int('', 2)`); otherwise `(len(a) + 3) // 4` upper-case hex digits whose value is the bit string, plus the selected names |
| Anidb.BinaryValueBit | anidb.py:96 | character i of a bit string is bit `len - 1 - i` of its value |
| Anidb.BitsBit | anidb.py:95-96 | bit `len(a) - 1 - i` of the bits' value is set iff `a[i]` is in `b` |
| Anidb.MaskBit | anidb.py:94-97 | the hex mask read back has bit `len(a) - 1 - i` set iff name i is requested |
| Anidb.MaskWidths | anidb.py:100-101 | `fmask` has 40 names and 10 digits; `amask` has 32 names and 8 digits |
| Anidb.TemplateKeys | anidb.py:99 | every key found is a non-empty run of `[0-9a-zA-Z_]` |
| Anidb.PlainTextSkipped | anidb.py:99 | `findall` skips text without '%': it finds in `p + rest` exactly what it finds in `rest` |
| Anidb.KeyAfterText | anidb.py:99 | after '%'-free text, `%word` followed by a non-word character is found, then the keys of the rest, in order |
| Anidb.BarePercent | anidb.py:99 | a '%' not followed by a word character yields no key |
| Anidb.LeadingKey | anidb.py:99 | a text starting with `%word`, followed by a non-word character, yields `word` first |
| Anidb.Templates | anidb.py:99 | the templates scanned are values configured under keys of the fixed list, no more of them than the list has keys |
| Anidb.TemplatesComplete | anidb.py:99 | every key of the list that is configured contributes its template |
| Anidb.TemplatesAppend | anidb.py:99 | keys are taken independently and in list order: two parts of the list give their templates one after the other |
| Anidb.TemplatesOne | anidb.py:99 | one key gives its template if configured, and nothing otherwise |
| Anidb.GluedKey | anidb.py:99 | a word glued to text starting with a word character is read as one longer key |
| Anidb.GluedText | anidb.py:99 | "%anime_type" glued to such a text does not yield `anime_type` |
| Anidb.GluedAnimeType | anidb.py:99 | as written, a configuration whose only template starts with a word character does not request `anime_type` |
| Anidb.SeparatedKeys | anidb.py:99 | `%word joined` yields `word`, then the keys of `joined` |
| Anidb.ConfigFieldsIntended | anidb.py:99 | the corrected `config_fields` is `anime_type` plus the keys of the templates |
| Anidb.FieldsOf | anidb.py:102 | the field list starts with "fid", and every other field is one the templates use |
| Anidb.FieldsOfMakeMap | anidb.py:100-102 | `fields` is "fid", then the `fmask` names part, then the `amask` names part |
| Anidb.FieldsRequested | anidb.py:102 | every field other than "fid" is one the templates use |
| Anidb.AnameInFieldsOf | anidb.py:101-102 | a used name of the `amask` list is among the fields |
| Anidb.InFieldsRequested | anidb.py:99-102 | the same, for the two fixed name lists |
| Anidb.AmaskNameInFields | anidb.py:101-102 | a used `amask` name is among the fields |
| Anidb.UnrequestedNotInFields | anidb.py:99-102 | an unused name other than "fid" is not among the fields |
| Anidb.AnimeTypeInAmask | anidb.py:101 | `anime_type` is an `amask` name |
| Anidb.GluedFieldsLackAnimeType | anidb.py:99-102 | as written, such a configuration's field list lacks `anime_type` |
| Anidb.IntendedFieldsHaveAnimeType | anidb.py:99-102 | with the correction, `anime_type` is always among the fields |
| Anidb.Zip | anidb.py:158 | `zip` pairs keys and values positionally, up to the shorter length |
| Anidb.Insert | anidb.py:158 | setting a dict key adds at most one item |
| Anidb.LookupInsert | anidb.py:158 | after `d[k] = v`, `d[k]` is `v` and every other key is unchanged |
| Anidb.LastValue | anidb.py:158 | `None` iff no pair has the key |
| Anidb.DictOfLookup | anidb.py:158 | `dict(pairs)[k]` is the last value paired with `k` |
| Anidb.ReplyFields | anidb.py:158 | the reply dict maps each field to the value paired last with it by `zip` of the fields and the '\|'-split reply after its first five characters |
| Anidb.SubstituteNoPercent | anidb.py:159 | a template without '%' comes through substitution unchanged |
| Anidb.ChooseTemplate | anidb.py:159 | a `KeyError` iff the reply has no `anime_type`; otherwise the template configured under that type, or the default template when the type is not configured |
| Anidb.RenameUsesTemplate | anidb.py:158-159 | when the reply's `anime_type` is `kind`, the new name is the substitution of `config[kind]`, or of the default template if `kind` is not configured, stripped of the forbidden characters |
| Anidb.PlainTemplateRename | anidb.py:159 | a configured template without '%' gives the template itself, stripped |
| Anidb.RenameTarget | anidb.py:158-159 | the new name has none of `: * ? " ' < > \|`, and it fails iff no zipped field is named `anime_type` |
| Anidb.NoAnimeTypeNoRename | anidb.py:158-159 | a field list without `anime_type` makes every rename fail |
| Anidb.RenameTargetClean | anidb.py:159 | stripping the forbidden characters again changes nothing |
| Anidb.Chomp | anidb.py:207 | the line is the body, perhaps followed by the one newline that `$` allows |
| Anidb.NameAndSize | anidb.py:207 | `.*\|\d+`: a newline-free name, a '\|', and one or more digits |
| Anidb.ParseBody | anidb.py:207 | an accepted body is the prefix, the name, the size and a 32-character `[A-Ga-g0-9]` hash, each followed by '\|' |
| Anidb.ParseAfter | anidb.py:207 | an accepted line has the pattern's form |
| Anidb.Ed2kParse | anidb.py:207 | an accepted line matches the pattern |
| Anidb.NameAndSizeComplete | anidb.py:207 | a name and an all-digit size are split apart again |
| Anidb.ParseBodyComplete | anidb.py:207 | every body of the pattern's form is accepted with its own parts |
| Anidb.ParseAfterComplete | anidb.py:207 | every line of the pattern's form, with or without the final newline, is accepted with its own parts |
| Anidb.Ed2kMatchIsParse | anidb.py:207-208 | the regular expression matches a line iff the parser accepts it |
| Anidb.DropLast | anidb.py:145 | Python's `s[:-1]` drops exactly the last character, if there is one |
| Anidb.QueueJobFields | anidb.py:207-209 | a matching line whose name has no '\|' queues `[name, size, hash]`, with or without the newline |
| Anidb.SizeAndHashBarFree | anidb.py:207 | the size digits and the hash characters hold no '\|' |
| Anidb.QueuedText | anidb.py:209 | `line[:-1]` of a matched line drops the final newline, or the hash's closing '\|' when there is none |
| Anidb.QueueJobAfter | anidb.py:209 | the same for any prefix of two '\|'-free fields |
| Anidb.ParseReply | anidb.py:144-145 | the code is `int()` of the first space-separated token |
| Anidb.ParseReplyRoundTrip | anidb.py:144-145 | a reply "CODE TEXT\n" is read back as that code and that text |
| Anidb.Request | anidb.py:144-151 | `send_request` returns iff the reply parses and its code is 200, 203, 220 or 300; a non-numeric code is the `ValueError` |
| Anidb.SessionKey | anidb.py:191-197 | the key is the first word of the AUTH message, accepted only if it has 4 to 8 letters or digits (plus one optional newline) |
| Anidb.SessionKeyOfReply | anidb.py:191-194 | a well-formed key followed by a space and more text is taken as the key |
| Anidb.NewlineKeyAccepted | anidb.py:192 | `$` lets a key followed by a newline through, with the newline kept in the key |
| Anidb.SpaceFreeKey | anidb.py:191-192 | a message without a space is its own first word |
| Text.Split | anidb.py:144 | `str.split(sep)` always yields at least one part |
| Text.JoinSplit | anidb.py:144-145 | joining the parts of a split with the same separator gives the text back |
| Text.SplitJoin | anidb.py:209 | splitting a join on a one-character separator that no part contains gives the parts back |
| Text.SplitCharFirst | anidb.py:144 | with a one-character separator, the first part runs up to its first occurrence |
| Text.SplitCharPartsFree | anidb.py:209 | with a one-character separator, no part contains it |
| Text.ReplaceIsJoinSplit | anidb.py:159 | `s.replace(a, b) == b.join(s.split(a))` |
| Text.ReplaceAbsent | anidb.py:159 | replacing a text that does not occur changes nothing |
| Text.RemoveChars | anidb.py:159 | `re.sub` with a character class leaves none of the class, and never lengthens the text |
| Text.RemoveCharsKeepsOthers | anidb.py:159 | every other character survives as often as it occurred |
| Text.RemoveCharsIdempotent | anidb.py:159 | stripping twice is stripping once |
| Numerals.NatToDecimal | obj2header.c:112 | `%zu` writes one or more digits with no leading zero |
| Numerals.DecimalRoundTrip | obj2header.c:126 | the printed decimal digits read back as the number |
| Numerals.IntToDecimal | piddump.c:14 | `%d` writes a '-' iff the number is negative, then digits |
| Numerals.PyInt | anidb.py:145 | `int()` succeeds only on text holding a digit |
| Numerals.PyIntRoundTrip | anidb.py:145 | `int()` reads back exactly what `%d` writes |
| Numerals.PyIntOfDigits | anidb.py:145 | `int()` of a digit string is its decimal value |
| Numerals.PyIntOfNegated | anidb.py:145 | `int()` of '-' and digits is minus their value |
| Numerals.BinaryValueBound | anidb.py:96 | `int(m, 2)` of n bits is below 2^n |
| Numerals.HexFixedValue | anidb.py:96 | w hex digits of a value below 16^w read back as that value |
| Numerals.HexWidthFits | anidb.py:96 | the unpadded hex width holds the value |
| Numerals.HexWidthMinimal | anidb.py:96 | no narrower width holds it |
| Numerals.HexPadded | anidb.py:96 | `'%0*X' % (w, v)`: upper-case hex of value v, zero-padded to w digits and never truncated |
| Numerals.BinaryFitsHexWidth | anidb.py:96 | the value of n bits needs at most `(n + 3) // 4` hex digits, so the padding width is always reached exactly |

## Left out

- libproc itself (`proc_listpids`, `proc_pidinfo`, `proc_pidfdinfo`), `malloc`, `free`, the VLA sizing of `pids`, and the byte layout of the macOS records. Their results are inputs. The record sizes are the input `RecordSizes`, since only their equality with the returned byte count matters.
- The contents of `pbi_name` when the info query fails. The name printed in the header is an input.
- File I/O in both converters: `access`, `fopen`, `ReadFile`, `fclose`, the 512-byte `outPath` copy, and failure of `fopen` on the output. File contents are an input, and the output is a destination plus text.
- The Windows `\r\n` delimiter of glsl2header.c.
- The OBJ parser (`fast_obj_read`). The mesh is an input, with every index in range.
- `%f` formatting of floats. Vertex values are an opaque type `T`, and formatting is a parameter.
- anidb.py's command line, configuration-file search and parsing, the UDP socket, threads and locks, the rate-limit wait, `os.rename`, `atexit`, and all printing. The configuration is a map given as input, and each reply text is an input.
- The text of the FILE, AUTH, PING and LOGOUT commands, and the password masking in the log line. These are output only.
- Numerals.PyInt: accepts only ASCII digits. Python's `int()` also accepts other Unicode decimal digits.
- Anidb.IsWordChar: follows the regular expression's ASCII class. The `\d` of the ed2k pattern is modelled as ASCII digits, although Python's `str` patterns also match other Unicode digits.
- Anidb.SubstituteNoPercent: the only property stated about the `%key` substitution order.
- PidDump.Classify: the pipe and AppleTalk replies come from `proc_pidinfo` called with the descriptor number in the flavor argument (piddump.c:56, 59), so what the kernel answers is unknown; their reply sizes are free inputs.
- PidDump.MainRun: requires the filled byte count to fit the pid buffer. A failing `proc_listpids` stores -1 in the `size_t` (piddump.c:67-70), and the loop then reads past the array, which is undefined behaviour.
- ObjHeader.Emit: uses unbounded naturals. In the code, `face_count * 3 * 8` is unsigned-int arithmetic (obj2header.c:111); the float buffer is a stack array that a large mesh overflows after the prologue is printed (obj2header.c:113); and `face_count * 3` is printed with `%d` (obj2header.c:127).
- GlslHeader.Convert: an `Err` does not record the text already written. This covers the "ERROR:" and usage lines of `BAIL` (glsl2header.c:39-46), the output file created and the prologue and first line written before a `NotDirective` abort (glsl2header.c:129-150), and the stdout prologue.
- ObjHeader.Convert: the same holds for the "ERROR:" and usage lines of `BAIL`.
- Anidb.QueueJobFields: states the queued job only for names without '|'. A name holding '|' shifts the fields, and the model computes that case without a lemma about it.

## Findings

| source | as written | input that shows it | evidently intended | confidence | as-written member | corrected member |
|---|---|---|---|---|---|---|
| piddump.c:58 | the AppleTalk branch compares `proc_fd`, the descriptor number, with `PROX_FDTYPE_ATALK` | an AppleTalk descriptor numbered 3 prints nothing; descriptor 0 of any unhandled type prints "ATALK" | compare `proc_fdtype` | high, not executed | PidDump.AtalkTestsDescriptorNumber | PidDump.ClassifyIntended |
| piddump.c:52 | the OPEN format has no "\n" | an OPEN socket followed by any other line prints both on one output line | end the OPEN line with "\n" like LISTEN | high, not executed | PidDump.OpenRunsIntoNextLine | PidDump.RenderIntended |
| glsl2header.c:60-69 | `FileName` calls `strlen(strstr(path, "/"))` before any test | `glsl2header a.glsl` passes every check and then reaches `strlen(NULL)` | treat a path with no '/' as its own last segment | high, not executed | GlslHeader.BareFileNameCrashes | GlslHeader.BareFileNameConvertsWhenIntended |
| anidb.py:99 | "%anime_type" is glued to the joined templates with no separator | with only a default template "x", the key read is "anime_typex", so `anime_type` is never requested and every rename fails | put a space after "%anime_type" | medium, not executed | Anidb.GluedFieldsLackAnimeType | Anidb.IntendedFieldsHaveAnimeType |

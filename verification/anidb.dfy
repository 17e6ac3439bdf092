/**
 * anidb.py: renames anime files from the AniDB UDP API. The model covers
 * the pure text handling: the field masks sent with each FILE request, the
 * field list the reply is read against, the new file name built from a
 * template, the filter on ed2k links read from standard input, the reply
 * parser, and the session-key check. Sockets, threads, timing and the file
 * system are left out; the configuration is a map given as input.
 */
module Anidb {
  import opened Wrappers
  import Numerals
  import Text
  import CPath

  // ---------------------------------------------------------------------
  // make_map
  // ---------------------------------------------------------------------

  /** `''.join(['1' if x in b else '0' for x in a])`. */
  function Bits(a: seq<string>, b: set<string>): (m: string)
    ensures |m| == |a| && Numerals.IsBitString(m)
    ensures forall i :: 0 <= i < |a| ==> (m[i] == '1' <==> a[i] in b)
    decreases |a|
  {
    if a == [] then [] else [if a[0] in b then '1' else '0'] + Bits(a[1..], b)
  }

  /** `[a[z] for z, y in enumerate(m) if y == '1']`. */
  function Pick(a: seq<string>, m: string): (r: seq<string>)
    requires |m| == |a|
    ensures |r| <= |a|
    ensures forall x :: x in r ==> x in a
    ensures forall i :: 0 <= i < |a| && m[i] == '1' ==> a[i] in r
    decreases |a|
  {
    if a == [] then []
    else
      var rest := Pick(a[1..], m[1..]);
      assert forall i :: 1 <= i < |a| ==> a[i] == a[1..][i - 1] && m[i] == m[1..][i - 1];
      assert forall x :: x in a[1..] ==> x in a;
      (if m[0] == '1' then [a[0]] else []) + rest
  }

  /** The elements of `a` that are in `b`, in `a`'s order: what the mask selects. */
  function Selected(a: seq<string>, b: set<string>): (r: seq<string>)
    ensures forall x :: x in r ==> x in a && x in b
    ensures forall x :: x in a && x in b ==> x in r
    decreases |a|
  {
    if a == [] then []
    else
      var rest := Selected(a[1..], b);
      assert forall x :: x in a ==> x == a[0] || x in a[1..];
      (if a[0] in b then [a[0]] else []) + rest
  }

  /** The number of '1' characters. */
  function Ones(m: string): nat
    decreases |m|
  {
    if m == [] then 0 else (if m[0] == '1' then 1 else 0) + Ones(m[1..])
  }

  /** Picking by the bits of a membership mask is filtering by membership, one name per '1'. */
  lemma {:induction false} PickBits(a: seq<string>, b: set<string>)
    ensures Pick(a, Bits(a, b)) == Selected(a, b)
    ensures |Selected(a, b)| == Ones(Bits(a, b))
    decreases |a|
  {
    if a != [] {
      PickBits(a[1..], b);
      var m := Bits(a, b);
      assert m[1..] == Bits(a[1..], b);
    }
  }

  /** The two parts of `make_map`'s result. */
  datatype Mask = Mask(hex: string, names: seq<string>)

  /**
   * `make_map(a, b)`: the membership bits as zero-padded upper-case hex,
   * `(len(a) + 3) // 4` digits, and the selected names. `None` stands for
   * the `ValueError` of `int('', 2)` when `a` is empty.
   */
  function MakeMap(a: seq<string>, b: set<string>): (r: Option<Mask>)
    ensures r.None? <==> a == []
    ensures r.Some? ==>
              && |r.value.hex| == (|a| + 3) / 4
              && Numerals.AllUpperHex(r.value.hex)
              && Numerals.HexValue(r.value.hex) == Numerals.BinaryValue(Bits(a, b))
              && r.value.names == Selected(a, b)
  {
    if a == [] then None
    else
      var m := Bits(a, b);
      Numerals.BinaryFitsHexWidth(m);
      PickBits(a, b);
      Some(Mask(Numerals.HexPadded(Numerals.BinaryValue(m), (|m| + 3) / 4), Pick(a, m)))
  }

  /** Bit `k` of `v`, counting from the least significant bit. */
  function BitOf(v: nat, k: nat): (b: nat)
    ensures b < 2
    decreases k
  {
    if k == 0 then v % 2 else BitOf(v / 2, k - 1)
  }

  /** Character `i` of a bit string is bit `|m| - 1 - i` of its value. */
  lemma {:induction false} BinaryValueBit(m: string, i: nat)
    requires Numerals.IsBitString(m) && i < |m|
    ensures BitOf(Numerals.BinaryValue(m), |m| - 1 - i) == (if m[i] == '1' then 1 else 0)
    decreases |m|
  {
    var p := m[..|m| - 1];
    var v := Numerals.BinaryValue(m);
    var l := if m[|m| - 1] == '1' then 1 else 0;
    assert v == 2 * Numerals.BinaryValue(p) + l;
    if i < |m| - 1 {
      BinaryValueBit(p, i);
      assert v / 2 == Numerals.BinaryValue(p);
      assert p[i] == m[i];
    }
  }

  /** Bit `|a| - 1 - i` of the membership bits' value records whether `a[i]` is in `b`. */
  lemma BitsBit(a: seq<string>, b: set<string>, i: nat)
    requires i < |a|
    ensures BitOf(Numerals.BinaryValue(Bits(a, b)), |a| - 1 - i) == 1 <==> a[i] in b
  {
    var m := Bits(a, b);
    assert |m| == |a| && (m[i] == '1' <==> a[i] in b);
    BinaryValueBit(m, i);
  }

  /**
   * The mask read back: bit `|a| - 1 - i` of the hex value is set exactly
   * when the `i`-th name is selected.
   */
  lemma MaskBit(a: seq<string>, b: set<string>, i: nat)
    requires i < |a|
    ensures MakeMap(a, b).Some?
    ensures BitOf(Numerals.HexValue(MakeMap(a, b).value.hex), |a| - 1 - i) == 1 <==> a[i] in b
  {
    BitsBit(a, b, i);
  }

  /** The `fmask` field names, one per bit, most significant first. */
  const FmaskNames: seq<string> := [
    "", "aid", "eid", "gid", "lid", "list_other_episodes", "", "state",
    "size", "ed2k", "md5", "sha1", "crc32", "", "", "",
    "quality", "src", "audio", "audio_bitrate_list", "video", "video_bitrate", "res", "file_type",
    "dub", "sub", "length", "description", "aired_date", "", "", "anidb_file_name",
    "mylist_state", "mylist_filestate", "mylist_viewed", "mylist_viewdate", "mylist_storage", "mylist_source", "mylist_other", ""]

  /** The `amask` field names, one per bit, most significant first. */
  const AmaskNames: seq<string> := [
    "anime_total_episodes", "highest_episode_number", "year", "anime_type", "related_aid_list", "related_aid_type", "category_list", "",
    "romanji_name", "kanji_name", "english_name", "other_name", "short_name_list", "synonym_list", "", "",
    "epno", "ep_name", "ep_romanji_name", "ep_kanji_name", "episode_rating", "episode_vote_count", "", "",
    "group_name", "group_short_name", "", "", "", "", "", "date_aid_record_updated"]

  /**
   * The masks sent to the server have 10 hex digits for `fmask` and 8 for
   * `amask`: `MakeMap` writes `(|a| + 3) / 4` digits for these counts.
   */
  lemma MaskWidths()
    ensures |FmaskNames| == 40 && (|FmaskNames| + 3) / 4 == 10
    ensures |AmaskNames| == 32 && (|AmaskNames| + 3) / 4 == 8
  {
  }

  // ---------------------------------------------------------------------
  // config_fields and fields
  // ---------------------------------------------------------------------

  /** A character of the regex class `[0-9a-zA-Z_]`. */
  predicate IsWordChar(c: char) {
    ('0' <= c <= '9') || ('a' <= c <= 'z') || ('A' <= c <= 'Z') || c == '_'
  }

  /** The length of the longest prefix of word characters. */
  function WordRun(s: string): (k: nat)
    ensures k <= |s| && forall i :: 0 <= i < k ==> IsWordChar(s[i])
    ensures k < |s| ==> !IsWordChar(s[k])
    decreases |s|
  {
    if s != [] && IsWordChar(s[0]) then 1 + WordRun(s[1..]) else 0
  }

  /**
   * `re.findall(r'%([0-9a-zA-Z_]+)', s)`: the word after each '%' that is
   * followed by a word character, scanning left to right.
   */
  function TemplateKeys(s: string): (keys: seq<string>)
    ensures forall k :: k in keys ==> |k| > 0 && forall i :: 0 <= i < |k| ==> IsWordChar(k[i])
    decreases |s|
  {
    if s == [] then []
    else if s[0] == '%' && |s| > 1 && IsWordChar(s[1]) then
      var k := 1 + WordRun(s[1..]);
      [s[1..k]] + TemplateKeys(s[k..])
    else TemplateKeys(s[1..])
  }

  lemma {:induction false} WordRunOf(w: string, rest: string)
    requires forall i :: 0 <= i < |w| ==> IsWordChar(w[i])
    requires rest == [] || !IsWordChar(rest[0])
    ensures WordRun(w + rest) == |w|
    decreases |w|
  {
    if w == [] {
      assert w + rest == rest;
    } else {
      assert (w + rest)[1..] == w[1..] + rest;
      WordRunOf(w[1..], rest);
    }
  }

  /** A text starting with `%word`, the word ending where a non-word character begins, yields `word` first. */
  lemma LeadingKey(w: string, rest: string)
    requires |w| > 0 && forall i :: 0 <= i < |w| ==> IsWordChar(w[i])
    requires rest == [] || !IsWordChar(rest[0])
    ensures TemplateKeys("%" + w + rest) == [w] + TemplateKeys(rest)
  {
    var s := "%" + w + rest;
    assert s[1..] == w + rest;
    WordRunOf(w, rest);
    assert s[1..1 + |w|] == w;
    assert s[1 + |w|..] == rest;
  }

  /** Text without '%' before the rest contributes no keys. */
  lemma {:induction false} PlainTextSkipped(p: string, rest: string)
    requires '%' !in p
    ensures TemplateKeys(p + rest) == TemplateKeys(rest)
    decreases |p|
  {
    if p == [] {
      assert p + rest == rest;
    } else {
      assert (p + rest)[0] == p[0] && (p + rest)[1..] == p[1..] + rest;
      assert p[0] in p;
      PlainTextSkipped(p[1..], rest);
    }
  }

  /**
   * The scan, one match at a time: after '%'-free text, a '%' followed by a
   * maximal word yields that word and the scan resumes after it.
   */
  lemma KeyAfterText(p: string, w: string, rest: string)
    requires '%' !in p
    requires |w| > 0 && forall i :: 0 <= i < |w| ==> IsWordChar(w[i])
    requires rest == [] || !IsWordChar(rest[0])
    ensures TemplateKeys(p + "%" + w + rest) == [w] + TemplateKeys(rest)
  {
    assert p + "%" + w + rest == p + ("%" + w + rest);
    PlainTextSkipped(p, "%" + w + rest);
    LeadingKey(w, rest);
  }

  /** A '%' not followed by a word character yields nothing. */
  lemma BarePercent(p: string, rest: string)
    requires '%' !in p
    requires rest == [] || !IsWordChar(rest[0])
    ensures TemplateKeys(p + "%" + rest) == TemplateKeys(rest)
  {
    assert p + "%" + rest == p + ("%" + rest);
    PlainTextSkipped(p, "%" + rest);
    assert ("%" + rest)[1..] == rest;
  }

  /** The configuration keys whose templates are scanned, in this order. */
  const TemplateOrder: seq<string> := ["unknown", "TV", "OVA", "Movie", "Other", "web", "default"]

  /** The templates of those keys present in `config`, in `TemplateOrder`. */
  function Templates(config: map<string, string>, order: seq<string>): (ts: seq<string>)
    ensures |ts| <= |order|
    ensures forall t :: t in ts ==> exists k :: k in order && k in config && config[k] == t
    decreases |order|
  {
    if order == [] then []
    else
      var rest := Templates(config, order[1..]);
      assert forall t :: t in rest ==> exists k :: k in order && k in config && config[k] == t by {
        forall t | t in rest ensures exists k :: k in order && k in config && config[k] == t {
          var k :| k in order[1..] && k in config && config[k] == t;
          assert k in order;
        }
      }
      (if order[0] in config then [config[order[0]]] else []) + rest
  }

  /** Keys are taken independently of each other and in list order. */
  lemma {:induction false} TemplatesAppend(config: map<string, string>, a: seq<string>, b: seq<string>)
    ensures Templates(config, a + b) == Templates(config, a) + Templates(config, b)
    decreases |a|
  {
    if a == [] {
      assert a + b == b;
    } else {
      var head := if a[0] in config then [config[a[0]]] else [];
      assert (a + b)[0] == a[0] && (a + b)[1..] == a[1..] + b;
      TemplatesAppend(config, a[1..], b);
      assert head + Templates(config, a[1..]) + Templates(config, b) == head + (Templates(config, a[1..]) + Templates(config, b));
    }
  }

  /** Every configured key of the list contributes its template. */
  lemma {:induction false} TemplatesComplete(config: map<string, string>, order: seq<string>, k: string)
    requires k in order && k in config
    ensures config[k] in Templates(config, order)
    decreases |order|
  {
    if k != order[0] {
      assert order == [order[0]] + order[1..];
      TemplatesComplete(config, order[1..], k);
    }
  }

  /** One key contributes its template if it is configured, and nothing otherwise. */
  lemma TemplatesOne(config: map<string, string>, k: string)
    ensures Templates(config, [k]) == if k in config then [config[k]] else []
  {
    assert [k][1..] == [];
  }

  /** The field whose value picks the template. */
  const AnimeType: string := "anime_type"

  /**
   * `config_fields` as written: the keys found in "%anime_type" glued with
   * no separator to the space-joined templates.
   */
  function ConfigFields(config: map<string, string>): set<string> {
    GluedKeys(Text.Join(Templates(config, TemplateOrder), " "))
  }

  /** The keys of "%anime_type" followed directly by `joined`. */
  function GluedKeys(joined: string): set<string> {
    KeySet(TemplateKeys("%" + AnimeType + joined))
  }

  /** Python's `set(keys)`. */
  function KeySet(keys: seq<string>): set<string> {
    set k | k in keys
  }

  lemma KeySetCons(w: string, keys: seq<string>)
    ensures KeySet([w] + keys) == {w} + KeySet(keys)
  {
  }

  /** The templates of a configuration holding only a default template. */
  lemma OnlyDefault(t: string)
    ensures Templates(map["default" := t], TemplateOrder) == [t]
  {
    var config := map["default" := t];
    var order := TemplateOrder;
    assert order[6..][1..] == [];
    assert order[5..][1..] == order[6..];
    assert order[4..][1..] == order[5..];
    assert order[3..][1..] == order[4..];
    assert order[2..][1..] == order[3..];
    assert order[1..][1..] == order[2..];
    assert order[0..][1..] == order[1..];
    assert order[0..] == order;
  }

  /** A text without '%' has no keys. */
  lemma {:induction false} NoPercentNoKeys(s: string)
    requires '%' !in s
    ensures TemplateKeys(s) == []
    decreases |s|
  {
    if s != [] {
      NoPercentNoKeys(s[1..]);
    }
  }

  /**
   * With a first template that starts with a word character the glued
   * name is read as one longer key, and `anime_type` is not requested:
   * a configuration whose only template is, say, "x" asks for "anime_typex".
   */
  lemma GluedAnimeType(t: string)
    requires |t| > 0 && IsWordChar(t[0]) && '%' !in t
    ensures AnimeType !in ConfigFields(map["default" := t])
  {
    OnlyDefault(t);
    assert Text.Join([t], " ") == t;
    GluedText(t);
  }

  /** "%anime_type" glued to a '%'-free text starting with a word character does not yield `anime_type`. */
  lemma GluedText(t: string)
    requires |t| > 0 && IsWordChar(t[0]) && '%' !in t
    ensures AnimeType !in GluedKeys(t)
  {
    AnimeTypeIsWord();
    var w := GluedKey(AnimeType, t);
    KeySetCons(w, []);
  }

  /** A word glued to a '%'-free text starting with a word character is read as one longer key. */
  lemma GluedKey(a: string, t: string) returns (w: string)
    requires |a| > 0 && forall i :: 0 <= i < |a| ==> IsWordChar(a[i])
    requires |t| > 0 && IsWordChar(t[0]) && '%' !in t
    ensures |w| > |a| && TemplateKeys("%" + a + t) == [w]
  {
    var k := WordRun(t);
    var u, rest := t[..k], t[k..];
    w := a + u;
    assert "%" + a + t == "%" + w + rest by {
      Regroup("%", a, u, rest);
      assert u + rest == t;
    }
    assert '%' !in rest by {
      forall i | 0 <= i < |rest| ensures rest[i] != '%' { assert rest[i] == t[k + i]; }
    }
    WordsConcat(a, u);
    LeadingKey(w, rest);
    NoPercentNoKeys(rest);
  }

  lemma WordsConcat(a: string, b: string)
    requires forall i :: 0 <= i < |a| ==> IsWordChar(a[i])
    requires forall i :: 0 <= i < |b| ==> IsWordChar(b[i])
    ensures forall i :: 0 <= i < |a + b| ==> IsWordChar((a + b)[i])
  {
  }

  lemma Regroup(a: string, b: string, c: string, d: string)
    ensures a + (b + c) + d == a + b + (c + d)
  {
  }

  /** A text `%word joined` yields `word`, then the keys of `joined`. */
  lemma SeparatedKeys(w: string, joined: string)
    requires |w| > 0 && forall i :: 0 <= i < |w| ==> IsWordChar(w[i])
    ensures TemplateKeys("%" + w + " " + joined) == [w] + TemplateKeys(joined)
  {
    var rest := " " + joined;
    LeadingKey(w, rest);
    assert "%" + w + " " + joined == "%" + w + rest;
    assert rest[1..] == joined;
  }

  lemma AnimeTypeIsWord()
    ensures |AnimeType| > 0 && forall i :: 0 <= i < |AnimeType| ==> IsWordChar(AnimeType[i])
  {
  }

  /** `config_fields` as evidently intended: "%anime_type" is its own key. */
  function ConfigFieldsIntended(config: map<string, string>): (cf: set<string>)
    ensures cf == {AnimeType} + KeySet(TemplateKeys(Text.Join(Templates(config, TemplateOrder), " ")))
  {
    var joined := Text.Join(Templates(config, TemplateOrder), " ");
    AnimeTypeIsWord();
    SeparatedKeys(AnimeType, joined);
    KeySetCons(AnimeType, TemplateKeys(joined));
    KeySet(TemplateKeys("%" + AnimeType + " " + joined))
  }

  /** The field list for name lists `fnames` and `anames`: "fid", then the two selections. */
  function FieldsOf(fnames: seq<string>, anames: seq<string>, cf: set<string>): (r: seq<string>)
    ensures |r| >= 1 && r[0] == "fid"
    ensures forall x :: x in r && x != "fid" ==> x in cf
  {
    ["fid"] + Selected(fnames, cf) + Selected(anames, cf)
  }

  /** The selections are the name parts `make_map` returns for the two lists. */
  lemma FieldsOfMakeMap(fnames: seq<string>, anames: seq<string>, cf: set<string>)
    requires |fnames| > 0 && |anames| > 0
    ensures FieldsOf(fnames, anames, cf) == ["fid"] + MakeMap(fnames, cf).value.names + MakeMap(anames, cf).value.names
  {
  }

  /** `fields`: "fid", then the `fmask` selection, then the `amask` selection. */
  function Fields(cf: set<string>): seq<string> {
    FieldsOf(FmaskNames, AmaskNames, cf)
  }

  /** Every field other than "fid" is one the templates use. */
  lemma FieldsRequested(fnames: seq<string>, anames: seq<string>, cf: set<string>, x: string)
    requires x in FieldsOf(fnames, anames, cf) && x != "fid"
    ensures x in cf
  {
    var f, a := Selected(fnames, cf), Selected(anames, cf);
    assert FieldsOf(fnames, anames, cf) == ["fid"] + (f + a);
    assert x in f + a;
  }

  /** A name of the second list that the templates use is among the fields. */
  lemma AnameInFieldsOf(fnames: seq<string>, anames: seq<string>, cf: set<string>, x: string)
    requires x in cf && x in anames
    ensures x in FieldsOf(fnames, anames, cf)
  {
    var sel := Selected(anames, cf);
    assert x in sel;
    var fields := FieldsOf(fnames, anames, cf);
    var f := Selected(fnames, cf);
    assert fields[1 + |f|..] == sel;
  }

  /** The field list holds a name other than "fid" only if the templates use it. */
  lemma InFieldsRequested(cf: set<string>, x: string)
    requires x in Fields(cf) && x != "fid"
    ensures x in cf
  {
    FieldsRequested(FmaskNames, AmaskNames, cf, x);
  }

  /** A name in the `amask` list that the templates use is among the fields. */
  lemma AmaskNameInFields(cf: set<string>, x: string)
    requires x in cf && x in AmaskNames
    ensures x in Fields(cf)
  {
    AnameInFieldsOf(FmaskNames, AmaskNames, cf, x);
  }

  /** A name the templates do not use, other than "fid", is not among the fields. */
  lemma UnrequestedNotInFields(cf: set<string>, x: string)
    requires x !in cf && x != "fid"
    ensures x !in Fields(cf)
  {
    if x in Fields(cf) {
      InFieldsRequested(cf, x);
    }
  }

  lemma AnimeTypeInAmask()
    ensures AnimeType in AmaskNames
  {
    assert AmaskNames[3] == AnimeType;
  }

  /** As written, such a configuration's field list lacks `anime_type`. */
  lemma GluedFieldsLackAnimeType(t: string)
    requires |t| > 0 && IsWordChar(t[0]) && '%' !in t
    ensures AnimeType !in Fields(ConfigFields(map["default" := t]))
  {
    GluedAnimeType(t);
    UnrequestedNotInFields(ConfigFields(map["default" := t]), AnimeType);
  }

  /** As intended, `anime_type` is always among the requested fields. */
  lemma IntendedFieldsHaveAnimeType(config: map<string, string>)
    ensures AnimeType in Fields(ConfigFieldsIntended(config))
  {
    AnimeTypeInAmask();
    AmaskNameInFields(ConfigFieldsIntended(config), AnimeType);
  }

  // ---------------------------------------------------------------------
  // The rename target
  // ---------------------------------------------------------------------

  /** `zip(keys, values)`: pairs up to the shorter length. */
  function Zip(keys: seq<string>, values: seq<string>): (z: seq<(string, string)>)
    ensures |z| == if |keys| < |values| then |keys| else |values|
    ensures forall i :: 0 <= i < |z| ==> z[i] == (keys[i], values[i])
    decreases |keys|
  {
    if keys == [] || values == [] then [] else [(keys[0], values[0])] + Zip(keys[1..], values[1..])
  }

  /** Setting `d[k] = v` on a Python dict kept as its items in insertion order. */
  function Insert(d: seq<(string, string)>, k: string, v: string): (r: seq<(string, string)>)
    ensures |r| == |d| || |r| == |d| + 1
    decreases |d|
  {
    if d == [] then [(k, v)]
    else if d[0].0 == k then [(k, v)] + d[1..]
    else [d[0]] + Insert(d[1..], k, v)
  }

  /** `d[k]`, or `None` for the `KeyError`. */
  function Lookup(d: seq<(string, string)>, k: string): Option<string>
    decreases |d|
  {
    if d == [] then None else if d[0].0 == k then Some(d[0].1) else Lookup(d[1..], k)
  }

  lemma {:induction false} LookupInsert(d: seq<(string, string)>, k: string, v: string, q: string)
    ensures Lookup(Insert(d, k, v), q) == if q == k then Some(v) else Lookup(d, q)
    decreases |d|
  {
    if d != [] && d[0].0 != k {
      LookupInsert(d[1..], k, v, q);
      assert Insert(d, k, v)[1..] == Insert(d[1..], k, v);
    }
  }

  /** `dict(pairs)`: keys in first-seen order, each holding its last value. */
  function DictOf(pairs: seq<(string, string)>): seq<(string, string)>
    decreases |pairs|
  {
    if pairs == [] then [] else Insert(DictOf(pairs[..|pairs| - 1]), pairs[|pairs| - 1].0, pairs[|pairs| - 1].1)
  }

  /** The value of the last pair with key `k`: what a dict built from the pairs holds. */
  function LastValue(pairs: seq<(string, string)>, k: string): (r: Option<string>)
    ensures r.None? <==> forall i :: 0 <= i < |pairs| ==> pairs[i].0 != k
    decreases |pairs|
  {
    if pairs == [] then None
    else if pairs[|pairs| - 1].0 == k then Some(pairs[|pairs| - 1].1)
    else
      var r := LastValue(pairs[..|pairs| - 1], k);
      assert forall i :: 0 <= i < |pairs| - 1 ==> pairs[i] == pairs[..|pairs| - 1][i];
      r
  }

  /** Looking a key up in `dict(pairs)` finds the last value paired with it. */
  lemma {:induction false} DictOfLookup(pairs: seq<(string, string)>, k: string)
    ensures Lookup(DictOf(pairs), k) == LastValue(pairs, k)
    decreases |pairs|
  {
    if pairs != [] {
      var last := pairs[|pairs| - 1];
      DictOfLookup(pairs[..|pairs| - 1], k);
      LookupInsert(DictOf(pairs[..|pairs| - 1]), last.0, last.1, k);
    }
  }

  /** `reduce(lambda a, b: a.replace('%' + b, z[b]), z, template)`. */
  function Substitute(template: string, z: seq<(string, string)>): string
    decreases |z|
  {
    if z == [] then template
    else Substitute(Text.ReplaceAll(template, "%" + z[0].0, z[0].1), z[1..])
  }

  /** A template without '%' comes through substitution unchanged. */
  lemma {:induction false} SubstituteNoPercent(template: string, z: seq<(string, string)>)
    requires '%' !in template
    ensures Substitute(template, z) == template
    decreases |z|
  {
    if z != [] {
      var pat := "%" + z[0].0;
      forall i ensures !Text.OccursAt(template, pat, i) {
        if 0 <= i && i + |pat| <= |template| {
          assert template[i..i + |pat|][0] == template[i];
          assert template[i] in template;
        }
      }
      Text.ReplaceAbsent(template, pat, z[0].1);
      SubstituteNoPercent(template, z[1..]);
    }
  }

  /** The characters `[:*?"'<>|]` the new name may not contain. */
  const Forbidden: set<char> := {':', '*', '?', '"', '\'', '<', '>', '|'}

  /** Python's `s[5:]`. */
  function DropFive(s: string): string {
    if |s| <= 5 then [] else s[5..]
  }

  /** The reply's fields by name: `dict(zip(fields, message[5:].split('|')))`. */
  function ReplyFields(fields: seq<string>, message: string): (z: seq<(string, string)>)
    ensures forall k :: Lookup(z, k) == LastValue(Zip(fields, Text.Split(DropFive(message), "|")), k)
  {
    var pairs := Zip(fields, Text.Split(DropFive(message), "|"));
    assert forall k :: Lookup(DictOf(pairs), k) == LastValue(pairs, k) by {
      forall k ensures Lookup(DictOf(pairs), k) == LastValue(pairs, k) {
        DictOfLookup(pairs, k);
      }
    }
    DictOf(pairs)
  }

  /**
   * `config[z['anime_type']]` when that key is configured, else the default
   * template; `None` for the `KeyError` when the reply has no `anime_type`.
   */
  function ChooseTemplate(config: map<string, string>, z: seq<(string, string)>): (t: Option<string>)
    requires "default" in config
    ensures t.None? <==> Lookup(z, "anime_type").None?
    ensures t.Some? ==> t.value in config.Values
    ensures t.Some? ==>
              var kind := Lookup(z, "anime_type").value;
              && (kind in config ==> t.value == config[kind])
              && (kind !in config ==> t.value == config["default"])
  {
    match Lookup(z, "anime_type")
    case None => None
    case Some(kind) => Some(if kind in config then config[kind] else config["default"])
  }

  /**
   * The new file name `n` of `work_loop`: the chosen template with every
   * `%key` of the reply substituted, then stripped of forbidden characters.
   */
  function RenameTarget(config: map<string, string>, fields: seq<string>, message: string): (n: Option<string>)
    requires "default" in config
    ensures n.Some? ==> forall i :: 0 <= i < |n.value| ==> n.value[i] !in Forbidden
    ensures n.None? <==>
              var parts := Text.Split(DropFive(message), "|");
              forall i :: 0 <= i < |fields| && i < |parts| ==> fields[i] != "anime_type"
  {
    var pairs := Zip(fields, Text.Split(DropFive(message), "|"));
    var z := DictOf(pairs);
    DictOfLookup(pairs, "anime_type");
    match ChooseTemplate(config, z)
    case None => None
    case Some(t) => Some(Text.RemoveChars(Substitute(t, z), Forbidden))
  }

  /**
   * The template used is the one configured under the reply's `anime_type`
   * value (the last one zipped to that field), or the default template when
   * that value is not a configuration key.
   */
  lemma RenameUsesTemplate(config: map<string, string>, fields: seq<string>, message: string, kind: string)
    requires "default" in config
    requires LastValue(Zip(fields, Text.Split(DropFive(message), "|")), "anime_type") == Some(kind)
    ensures var t := if kind in config then config[kind] else config["default"];
            RenameTarget(config, fields, message)
              == Some(Text.RemoveChars(Substitute(t, ReplyFields(fields, message)), Forbidden))
  {
  }

  /** A template without any `%key` becomes the new name once stripped. */
  lemma PlainTemplateRename(config: map<string, string>, fields: seq<string>, message: string, kind: string)
    requires "default" in config
    requires LastValue(Zip(fields, Text.Split(DropFive(message), "|")), "anime_type") == Some(kind)
    requires kind in config && '%' !in config[kind]
    ensures RenameTarget(config, fields, message) == Some(Text.RemoveChars(config[kind], Forbidden))
  {
    RenameUsesTemplate(config, fields, message, kind);
    SubstituteNoPercent(config[kind], ReplyFields(fields, message));
  }

  /** A field list without `anime_type` makes every rename fail. */
  lemma NoAnimeTypeNoRename(config: map<string, string>, fields: seq<string>, message: string)
    requires "default" in config && "anime_type" !in fields
    ensures RenameTarget(config, fields, message).None?
  {
  }

  /** Stripping the forbidden characters again changes nothing: the name is final. */
  lemma RenameTargetClean(config: map<string, string>, fields: seq<string>, message: string)
    requires "default" in config && RenameTarget(config, fields, message).Some?
    ensures var n := RenameTarget(config, fields, message).value;
            Text.RemoveChars(n, Forbidden) == n
  {
    var z := ReplyFields(fields, message);
    var t := ChooseTemplate(config, z).value;
    Text.RemoveCharsIdempotent(Substitute(t, z), Forbidden);
  }

  // ---------------------------------------------------------------------
  // Standard input: ed2k links
  // ---------------------------------------------------------------------

  const Ed2kPrefix: string := "ed2k://|file|"

  /** A character of the class `[A-Ga-g0-9]` (note: 'G' and 'g' included). */
  predicate IsHashChar(c: char) {
    ('A' <= c <= 'G') || ('a' <= c <= 'g') || ('0' <= c <= '9')
  }

  predicate AllHashChars(s: string) {
    forall i :: 0 <= i < |s| ==> IsHashChar(s[i])
  }

  /**
   * `line` is `p` then `NAME|SIZE|HASH|`, optionally followed by one newline
   * (which `$` allows), with NAME free of newlines (`.*`), SIZE one or more
   * digits and HASH 32 characters of the hash class.
   */
  predicate FormAfter(p: string, line: string, name: string, size: string, hash: string, nl: bool) {
    && '\n' !in name
    && |size| >= 1 && Numerals.AllDigits(size)
    && |hash| == 32 && AllHashChars(hash)
    && line == p + name + "|" + size + "|" + hash + "|" + (if nl then "\n" else "")
  }

  /** The shape of a line of the form `ed2k://|file|NAME|SIZE|HASH|`. */
  predicate Ed2kForm(line: string, name: string, size: string, hash: string, nl: bool) {
    FormAfter(Ed2kPrefix, line, name, size, hash, nl)
  }

  /** `re.match(r'^ed2k://\|file\|.*\|\d+\|[A-Ga-g0-9]{32}\|$', line)` succeeds. */
  ghost predicate Ed2kMatch(line: string) {
    exists name, size, hash, nl :: Ed2kForm(line, name, size, hash, nl)
  }

  datatype Link = Link(name: string, size: string, hash: string)

  /** The line without the one final newline `$` tolerates. */
  function Chomp(line: string): (body: string)
    ensures line == body || line == body + "\n"
    ensures line == body <==> !(|line| > 0 && line[|line| - 1] == '\n')
  {
    if |line| > 0 && line[|line| - 1] == '\n' then line[..|line| - 1] else line
  }

  /** `.*\|\d+`: the name and size around the last '|' of `pre`, the size all digits. */
  function NameAndSize(pre: string): (r: Option<(string, string)>)
    ensures r.Some? ==> pre == r.value.0 + "|" + r.value.1
    ensures r.Some? ==> '\n' !in r.value.0 && |r.value.1| >= 1 && Numerals.AllDigits(r.value.1)
  {
    match CPath.LastIndex(pre, '|')
    case None => None
    case Some(j) =>
      var name, size := pre[..j], pre[j + 1..];
      if |size| >= 1 && Numerals.AllDigits(size) && '\n' !in name then
        assert pre == name + "|" + size;
        Some((name, size))
      else None
  }

  /** `p NAME|SIZE|HASH|` without the newline, read from the end. */
  function ParseBody(p: string, body: string): (r: Option<Link>)
    ensures r.Some? ==> body == p + r.value.name + "|" + r.value.size + "|" + r.value.hash + "|"
    ensures r.Some? ==> '\n' !in r.value.name && |r.value.size| >= 1 && Numerals.AllDigits(r.value.size)
    ensures r.Some? ==> |r.value.hash| == 32 && AllHashChars(r.value.hash)
  {
    if |body| < |p| + 36 then None
    else if body[..|p|] != p || body[|body| - 1] != '|' || body[|body| - 34] != '|' then None
    else
      var hash := body[|body| - 33..|body| - 1];
      var pre := body[|p|..|body| - 34];
      if !AllHashChars(hash) then None
      else
        match NameAndSize(pre)
        case None => None
        case Some((name, size)) =>
          BodyCuts(p, body);
          Regrouped(p, pre, name, size, hash);
          Some(Link(name, size, hash))
  }

  /** A body with the three cuts of `ParseBody` is the prefix, `pre`, '|', the hash and '|'. */
  lemma BodyCuts(p: string, body: string)
    requires |body| >= |p| + 34 && body[..|p|] == p && body[|body| - 1] == '|' && body[|body| - 34] == '|'
    ensures body == p + body[|p|..|body| - 34] + "|" + body[|body| - 33..|body| - 1] + "|"
  {
    assert body == body[..|p|] + body[|p|..|body| - 34] + [body[|body| - 34]] + body[|body| - 33..|body| - 1] + [body[|body| - 1]];
  }

  lemma Regrouped(p: string, pre: string, name: string, size: string, hash: string)
    requires pre == name + "|" + size
    ensures p + pre + "|" + hash + "|" == p + name + "|" + size + "|" + hash + "|"
  {
  }

  /** The unique way a line matches `p` then the rest of the pattern. */
  function ParseAfter(p: string, line: string): (r: Option<Link>)
    ensures r.Some? ==> exists nl :: FormAfter(p, line, r.value.name, r.value.size, r.value.hash, nl)
  {
    var body := Chomp(line);
    var r := ParseBody(p, body);
    if r.Some? then
      FormOfBody(p, line, body, r.value);
      r
    else r
  }

  /** A line is its body, perhaps with one newline after it. */
  lemma FormOfBody(p: string, line: string, body: string, l: Link)
    requires line == body || line == body + "\n"
    requires body == p + l.name + "|" + l.size + "|" + l.hash + "|"
    requires '\n' !in l.name && |l.size| >= 1 && Numerals.AllDigits(l.size)
    requires |l.hash| == 32 && AllHashChars(l.hash)
    ensures FormAfter(p, line, l.name, l.size, l.hash, line != body)
  {
    if line != body {
      assert line == body + "\n";
    } else {
      assert line == body + "";
    }
  }

  /** The unique way a line matches the pattern. */
  function Ed2kParse(line: string): (r: Option<Link>)
    ensures r.Some? ==> exists nl :: Ed2kForm(line, r.value.name, r.value.size, r.value.hash, nl)
  {
    var r := ParseAfter(Ed2kPrefix, line);
    if r.Some? then
      var nl :| FormAfter(Ed2kPrefix, line, r.value.name, r.value.size, r.value.hash, nl);
      assert Ed2kForm(line, r.value.name, r.value.size, r.value.hash, nl);
      r
    else r
  }

  /** `LastIndex` finds the '|' that no later '|' follows. */
  lemma LastBar(s: string, k: nat)
    requires k < |s| && s[k] == '|' && '|' !in s[k + 1..]
    ensures CPath.LastIndex(s, '|') == Some(k)
  {
  }

  /** A name and an all-digit size are split apart again at the last '|'. */
  lemma NameAndSizeComplete(name: string, size: string)
    requires '\n' !in name && |size| >= 1 && Numerals.AllDigits(size)
    ensures NameAndSize(name + "|" + size) == Some((name, size))
  {
    var pre := name + "|" + size;
    assert pre[|name| + 1..] == size;
    assert '|' !in size by {
      forall i | 0 <= i < |size| ensures size[i] != '|' {
        assert Numerals.IsDigit(size[i]);
      }
    }
    LastBar(pre, |name|);
    assert pre[..|name|] == name;
  }

  /** A body `p NAME|SIZE|HASH|` is cut back into its three parts. */
  lemma ParseBodyComplete(p: string, name: string, size: string, hash: string)
    requires '\n' !in name && |size| >= 1 && Numerals.AllDigits(size)
    requires |hash| == 32 && AllHashChars(hash)
    ensures ParseBody(p, p + name + "|" + size + "|" + hash + "|") == Some(Link(name, size, hash))
  {
    var pre := name + "|" + size;
    assert p + name + "|" + size + "|" + hash + "|" == p + pre + "|" + hash + "|";
    NameAndSizeComplete(name, size);
    ParseBodyOf(p, pre, hash);
  }

  /** A body `p pre|hash|` is cut at the hash and then `pre` at its last '|'. */
  lemma ParseBodyOf(p: string, pre: string, hash: string)
    requires |hash| == 32 && AllHashChars(hash) && NameAndSize(pre).Some?
    ensures var ns := NameAndSize(pre).value;
            ParseBody(p, p + pre + "|" + hash + "|") == Some(Link(ns.0, ns.1, hash))
  {
    BodyPieces(p, pre, hash);
    assert |pre| >= 2;
  }

  /** Where `ParseBody` cuts a body `p pre|hash|` with a 32-character hash. */
  lemma BodyPieces(p: string, pre: string, hash: string)
    requires |hash| == 32
    ensures var body := p + pre + "|" + hash + "|";
            && |body| == |p| + |pre| + 34
            && body[..|p|] == p && body[|body| - 1] == '|' && body[|body| - 34] == '|'
            && body[|body| - 33..|body| - 1] == hash && body[|p|..|body| - 34] == pre
  {
  }

  /** A line of the form `p NAME|SIZE|HASH|` is parsed back into its three parts. */
  lemma ParseAfterComplete(p: string, line: string, name: string, size: string, hash: string, nl: bool)
    requires FormAfter(p, line, name, size, hash, nl)
    ensures ParseAfter(p, line) == Some(Link(name, size, hash))
  {
    var body := p + name + "|" + size + "|" + hash + "|";
    assert line == body + (if nl then "\n" else "");
    assert Chomp(line) == body by {
      if nl { assert line[..|line| - 1] == body; }
    }
    ParseBodyComplete(p, name, size, hash);
  }

  /** The pattern matches a line exactly when the parser accepts it. */
  lemma Ed2kMatchIsParse(line: string)
    ensures Ed2kMatch(line) <==> Ed2kParse(line).Some?
  {
    if Ed2kMatch(line) {
      var name, size, hash, nl :| Ed2kForm(line, name, size, hash, nl);
      ParseAfterComplete(Ed2kPrefix, line, name, size, hash, nl);
    }
  }

  /** Python's `s[:-1]`. */
  function DropLast(s: string): (r: string)
    ensures |s| > 0 ==> s == r + [s[|s| - 1]]
    ensures |s| == 0 ==> r == []
  {
    if |s| == 0 then s else s[..|s| - 1]
  }

  /** Python's `parts[2:5]`, clamped to the length. */
  function TwoToFive(parts: seq<string>): (r: seq<string>)
    ensures |r| <= 3
  {
    if |parts| <= 2 then [] else if |parts| <= 5 then parts[2..] else parts[2..5]
  }

  /** The job queued for a matching line: `line[:-1].split('|')[2:5]`. */
  function QueueJob(line: string): seq<string> {
    TwoToFive(Text.Split(DropLast(line), "|"))
  }

  /**
   * A matching line whose name has no '|' queues `[name, size, hash]`, with
   * or without its final newline (without one, `[:-1]` drops the final '|').
   */
  lemma QueueJobFields(line: string, name: string, size: string, hash: string, nl: bool)
    requires Ed2kForm(line, name, size, hash, nl) && '|' !in name
    ensures QueueJob(line) == [name, size, hash]
  {
    assert Ed2kPrefix == "ed2k://" + "|" + "file" + "|";
    QueueJobAfter("ed2k://", "file", line, name, size, hash, nl);
  }

  /** `QueueJobFields` for any prefix made of two '|'-free fields, each followed by '|'. */
  lemma QueueJobAfter(a: string, b: string, line: string, name: string, size: string, hash: string, nl: bool)
    requires '|' !in a && '|' !in b && '|' !in name
    requires FormAfter(a + "|" + b + "|", line, name, size, hash, nl)
    ensures QueueJob(line) == [name, size, hash]
  {
    var core := [a, b, name, size, hash];
    var parts := if nl then core + [""] else core;
    SizeAndHashBarFree(size, hash);
    assert forall i :: 0 <= i < |parts| ==> '|' !in parts[i];
    var last := if nl then hash + "|" else hash;
    JoinFive(a, b, name, size, parts[4..], last, "|");
    assert parts == [a, b, name, size] + parts[4..];
    QueuedText(a, b, name, size, hash, nl, line);
    Text.SplitJoin(parts, '|');
    assert "|" == ['|'];
  }

  /** Neither the size digits nor the hash characters include '|'. */
  lemma SizeAndHashBarFree(size: string, hash: string)
    requires Numerals.AllDigits(size) && AllHashChars(hash)
    ensures '|' !in size && '|' !in hash
  {
    forall i | 0 <= i < |size| ensures size[i] != '|' { assert Numerals.IsDigit(size[i]); }
    forall i | 0 <= i < |hash| ensures hash[i] != '|' { assert IsHashChar(hash[i]); }
  }

  /** `line[:-1]` of a matching line: the final newline goes, or else the final '|'. */
  lemma QueuedText(a: string, b: string, name: string, size: string, hash: string, nl: bool, line: string)
    requires line == a + "|" + b + "|" + name + "|" + size + "|" + hash + "|" + (if nl then "\n" else "")
    ensures DropLast(line) == a + "|" + b + "|" + name + "|" + size + "|" + (if nl then hash + "|" else hash)
  {
    var head := a + "|" + b + "|" + name + "|" + size + "|";
    var full := head + hash + "|";
    assert line == full + (if nl then "\n" else "");
    if nl {
      assert DropLast(line) == full;
      assert full == head + (hash + "|");
    } else {
      assert full == (head + hash) + "|";
    }
  }


  /** Joining four fields and a tail that joins to `last` puts `sep` between them. */
  lemma JoinFive(a: string, b: string, c: string, d: string, tail: seq<string>, last: string, sep: string)
    requires |tail| >= 1 && Text.Join(tail, sep) == last
    ensures Text.Join([a, b, c, d] + tail, sep) == a + sep + b + sep + c + sep + d + sep + last
  {
    var l3 := [d] + tail;
    var l2 := [c] + l3;
    var l1 := [b] + l2;
    assert [a, b, c, d] + tail == [a] + l1;
    Text.JoinCons(a, l1, sep);
    Text.JoinCons(b, l2, sep);
    Shift(a, sep, b, Text.Join(l2, sep));
    Text.JoinCons(c, l3, sep);
    Shift(a + sep + b, sep, c, Text.Join(l3, sep));
    Text.JoinCons(d, tail, sep);
    Shift(a + sep + b + sep + c, sep, d, last);
  }

  lemma Shift(x: string, sep: string, y: string, r: string)
    ensures x + sep + (y + sep + r) == x + sep + y + sep + r
  {
  }

  // ---------------------------------------------------------------------
  // Replies
  // ---------------------------------------------------------------------

  datatype Reply = Reply(code: int, message: string)

  /**
   * `send_request`'s parsing of a reply: the first space-separated token as
   * an integer and the rest, rejoined, minus its last character. `None`
   * stands for the `ValueError` of `int()`.
   */
  function ParseReply(data: string): (r: Option<Reply>)
    ensures r.Some? ==> Numerals.PyInt(Text.Split(data, " ")[0]) == Some(r.value.code)
  {
    var msg := Text.Split(data, " ");
    match Numerals.PyInt(msg[0])
    case None => None
    case Some(c) => Some(Reply(c, DropLast(Text.Join(msg[1..], " "))))
  }

  /** A reply written as "CODE TEXT\n" is read back as that code and text. */
  lemma ParseReplyRoundTrip(code: int, text: string)
    ensures ParseReply(Numerals.IntToDecimal(code) + " " + text + "\n") == Some(Reply(code, text))
  {
    var d := Numerals.IntToDecimal(code);
    var rest := text + "\n";
    var s := d + " " + rest;
    assert s == Numerals.IntToDecimal(code) + " " + text + "\n";
    assert ' ' !in d by {
      forall i | 0 <= i < |d| ensures d[i] != ' ' {
        if i > 0 { assert Numerals.IsDigit(d[i]); }
      }
    }
    assert s[..|d|] == d && s[|d|] == ' ' && s[|d| + 1..] == rest;
    Text.SplitCharFirst(s, ' ', |d|);
    assert " " == [' '];
    var msg := Text.Split(s, " ");
    assert msg == [d] + Text.Split(rest, " ");
    assert msg[0] == d && msg[1..] == Text.Split(rest, " ");
    Numerals.PyIntRoundTrip(code);
    Text.JoinSplit(rest, " ");
    assert DropLast(rest) == text;
  }

  /**
   * The codes after which `send_request` returns; any other code calls
   * `exit()`, which ends the calling thread (the whole program during AUTH).
   */
  predicate Accepted(code: int) {
    code in {200, 203, 220, 300}
  }

  datatype RequestError = Unparsable | Refused(code: int)

  /** The outcome of `send_request` for the reply text `data`. */
  function Request(data: string): (r: Result<Reply, RequestError>)
    ensures r.Ok? <==> ParseReply(data).Some? && Accepted(ParseReply(data).value.code)
    ensures r.Ok? ==> r.value == ParseReply(data).value
    ensures r == Err(Unparsable) <==> ParseReply(data).None?
  {
    match ParseReply(data)
    case None => Err(Unparsable)
    case Some(reply) => if Accepted(reply.code) then Ok(reply) else Err(Refused(reply.code))
  }

  // ---------------------------------------------------------------------
  // The session key
  // ---------------------------------------------------------------------

  predicate IsAsciiAlnum(c: char) {
    ('0' <= c <= '9') || ('a' <= c <= 'z') || ('A' <= c <= 'Z')
  }

  /**
   * `re.match(r'^[a-zA-Z0-9]{4,8}$', k)`: 4 to 8 ASCII letters or digits,
   * optionally followed by one final newline, which `$` lets through.
   */
  predicate KeyShape(k: string) {
    var core := if |k| > 0 && k[|k| - 1] == '\n' then k[..|k| - 1] else k;
    4 <= |core| <= 8 && forall i :: 0 <= i < |core| ==> IsAsciiAlnum(core[i])
  }

  /** The session key taken from the AUTH reply's message: its first space-separated word, if well formed. */
  function SessionKey(message: string): (key: Option<string>)
    ensures key.Some? ==> KeyShape(key.value) && 4 <= |key.value| <= 9
    ensures key.Some? ==> key.value == Text.Split(message, " ")[0]
  {
    var t := Text.Split(message, " ")[0];
    if KeyShape(t) then Some(t) else None
  }

  /** A well-formed key followed by a space and more text is taken as the key. */
  lemma SessionKeyOfReply(key: string, rest: string)
    requires 4 <= |key| <= 8 && forall i :: 0 <= i < |key| ==> IsAsciiAlnum(key[i])
    ensures SessionKey(key + " " + rest) == Some(key)
  {
    var s := key + " " + rest;
    assert ' ' !in key by {
      forall i | 0 <= i < |key| ensures key[i] != ' ' { assert IsAsciiAlnum(key[i]); }
    }
    assert s[..|key|] == key && s[|key|] == ' ';
    Text.SplitCharFirst(s, ' ', |key|);
    assert " " == [' '];
    assert key[|key| - 1] != '\n' by { assert IsAsciiAlnum(key[|key| - 1]); }
  }

  /** A key followed by a newline passes the check, newline included. */
  lemma NewlineKeyAccepted(key: string)
    requires 4 <= |key| <= 8 && forall i :: 0 <= i < |key| ==> IsAsciiAlnum(key[i])
    ensures SessionKey(key + "\n") == Some(key + "\n")
  {
    var s := key + "\n";
    assert ' ' !in s by {
      forall i | 0 <= i < |s| ensures s[i] != ' ' {
        if i < |key| { assert IsAsciiAlnum(key[i]); }
      }
    }
    assert s[..|s| - 1] == key && s[|s| - 1] == '\n';
    assert KeyShape(s);
    SpaceFreeKey(s);
  }

  /** A message without a space is its own first word. */
  lemma SpaceFreeKey(s: string)
    requires ' ' !in s
    ensures SessionKey(s) == if KeyShape(s) then Some(s) else None
  {
    Text.SplitCharFirst(s, ' ', |s|);
    assert " " == [' '];
  }
}

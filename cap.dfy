/**
 * `ConfigArgumentParser`: defaults and help texts read from the DEFAULT
 * section of an INI text, where each comment line is kept as a key of its
 * own (`allow_no_value`) and documents the next real key.
 */
module Cap {
  import opened Wrappers
  import opened Text
  import opened Scalars
  import opened OrderedMaps
  import opened Comments
  import opened Flags
  import opened PyObjects
  import opened Pipeline

  /** configparser's section-header pattern `SECTCRE`. */
  datatype SectionPattern =
    | BracketHeader   // configparser's own `[section]`
    | CommentHeader   // `# [section]`, for Python scripts

  /** `ast.literal_eval` on a value text: a Python literal, or `None` when it
      raises. */
  type Evaluator = string -> Option<Scalar>

  /** configparser reading one text with a section pattern: the keys and
      values of its DEFAULT section in reading order (a key without `=` has
      no value), or `None` when it raises. */
  type IniReader = (SectionPattern, string) -> Option<seq<(string, Option<string>)>>

  /** A file name and the file's text, `None` when it cannot be opened. */
  type SourceFile = (string, Option<string>)

  // ---------------------------------------------------------------------------
  // The DEFAULT section

  /** Reading keys into the DEFAULT section: a repeated key keeps its place
      and takes the later value (`strict=False`). */
  function Merge(config: OrderedMap<Option<string>>, entries: seq<(string, Option<string>)>): (r: OrderedMap<Option<string>>)
    requires config.Valid()
    ensures r.Valid()
    ensures |config.keys| <= |r.keys| && r.keys[..|config.keys|] == config.keys
    ensures forall k :: k in r.values <==> k in config.values || exists e :: e in entries && e.0 == k
    ensures forall k :: k in config.values && (forall e :: e in entries ==> e.0 != k) ==> r.values[k] == config.values[k]
    decreases |entries|
  {
    if entries == [] then config
    else
      var init := entries[..|entries| - 1];
      var last := entries[|entries| - 1];
      assert forall e :: e in entries <==> e in init || e == last;
      Merge(config, init).Put(last.0, last.1)
  }

  /** The last entry for a key wins. */
  lemma MergeLast(config: OrderedMap<Option<string>>, entries: seq<(string, Option<string>)>)
    requires config.Valid() && entries != []
    ensures Merge(config, entries).values[entries[|entries| - 1].0] == entries[|entries| - 1].1
  {
  }

  /** `config.read(filenames)`: every file that opens is read in turn, the
      others are skipped; an error stops the reading and leaves the files
      read before it merged. Returns the section, the names read and whether
      reading got through. */
  function ReadFiles(config: OrderedMap<Option<string>>, pattern: SectionPattern, ini: IniReader,
                     files: seq<SourceFile>): (r: (OrderedMap<Option<string>>, seq<string>, bool))
    requires config.Valid()
    ensures r.0.Valid()
    ensures |r.1| <= |files|
    ensures forall n :: n in r.1 ==> exists f :: f in files && f.0 == n && f.1.Some?
    decreases |files|
  {
    if files == [] then (config, [], true)
    else if files[0].1.None? then
      var rest := ReadFiles(config, pattern, ini, files[1..]);
      assert forall f :: f in files[1..] ==> f in files;
      rest
    else match ini(pattern, files[0].1.value)
      case None => (config, [], false)
      case Some(entries) =>
        var rest := ReadFiles(Merge(config, entries), pattern, ini, files[1..]);
        assert forall f :: f in files[1..] ==> f in files;
        (rest.0, [files[0].0] + rest.1, rest.2)
  }

  /** Files that cannot be opened are skipped without an error. */
  lemma {:induction false} UnopenedFilesSkipped(config: OrderedMap<Option<string>>, pattern: SectionPattern,
                                                ini: IniReader, files: seq<SourceFile>)
    requires config.Valid()
    requires forall i :: 0 <= i < |files| ==> files[i].1.None?
    ensures ReadFiles(config, pattern, ini, files) == (config, [], true)
    decreases |files|
  {
    if files != [] {
      UnopenedFilesSkipped(config, pattern, ini, files[1..]);
    }
  }

  // ---------------------------------------------------------------------------
  // `_convert_defaults`

  /** `key.startswith("#")`. */
  predicate IsCommentKey(key: string)
  {
    |key| > 0 && key[0] == '#'
  }

  /** `key.lstrip("#").strip()`: no whitespace at either end, and shorter
      than a comment key, whose first `#` at least is dropped. */
  function CommentText(key: string): (r: string)
    ensures |r| <= |key| && (IsCommentKey(key) ==> |r| < |key|)
    ensures r != [] ==> !IsSpace(r[0]) && !IsSpace(r[|r| - 1])
  {
    StripSpaces(LStripChars(key, {'#'}));
    Strip(LStripChars(key, {'#'}))
  }

  /** A comment's text is what is left after all of its leading `#` are
      dropped, with the surrounding whitespace stripped. */
  lemma CommentTextDropsHashes(key: string)
    ensures exists n :: && 0 <= n <= |key| && (forall i :: 0 <= i < n ==> key[i] == '#')
                        && (n < |key| ==> key[n] != '#') && CommentText(key) == Strip(key[n..])
  {
    LStripCharsDrops(key, {'#'});
    var n := |key| - |LStripChars(key, {'#'})|;
    assert CommentText(key) == Strip(key[n..]);
  }

  /** A DEFAULT-section key as the conversion sees it: a comment with its
      text, or a setting with its value text. */
  datatype Entry = Comment(text: string) | Setting(key: string, value: Option<string>)

  /** A key is a comment exactly when it starts with `#`; a setting keeps
      its key and value text. */
  function Classify(key: string, value: Option<string>): (r: Entry)
    ensures r.Comment? <==> IsCommentKey(key)
    ensures r.Setting? ==> r.key == key && r.value == value
  {
    if IsCommentKey(key) then Comment(CommentText(key)) else Setting(key, value)
  }

  /** The keys `keys` in order, classified. */
  function EntriesOf(keys: seq<string>, values: map<string, Option<string>>): (r: seq<Entry>)
    requires forall k :: k in keys ==> k in values
    ensures |r| == |keys|
    decreases |keys|
  {
    if keys == [] then [] else [Classify(keys[0], values[keys[0]])] + EntriesOf(keys[1..], values)
  }

  /** The keys of the section in order, classified. */
  function Entries(config: OrderedMap<Option<string>>): (r: seq<Entry>)
    requires config.Valid()
    ensures |r| == |config.keys|
  {
    EntriesOf(config.keys, config.values)
  }

  lemma {:induction false} EntriesOfClassify(keys: seq<string>, values: map<string, Option<string>>, i: nat)
    requires forall k :: k in keys ==> k in values
    requires i < |keys|
    ensures EntriesOf(keys, values)[i] == Classify(keys[i], values[keys[i]])
    decreases i
  {
    if i > 0 {
      EntriesOfClassify(keys[1..], values, i - 1);
    }
  }

  /** Entry `i` is key `i` of the section, classified. */
  lemma EntriesClassify(config: OrderedMap<Option<string>>, i: nat)
    requires config.Valid() && i < |config.keys|
    ensures Entries(config)[i] == Classify(config.keys[i], config.values[config.keys[i]])
  {
    EntriesOfClassify(config.keys, config.values, i);
  }

  /** No two settings share a key. */
  ghost predicate DistinctSettings(entries: seq<Entry>)
  {
    forall a, b :: 0 <= a < b < |entries| && entries[a].Setting? && entries[b].Setting? ==> entries[a].key != entries[b].key
  }

  /** The settings of a section are its non-comment keys, each once. */
  lemma EntriesOfSection(config: OrderedMap<Option<string>>, k: string)
    requires config.Valid()
    ensures DistinctSettings(Entries(config))
    ensures IsCommentKey(k) ==> forall m :: 0 <= m < |config.keys| && Entries(config)[m].Setting? ==> Entries(config)[m].key != k
  {
    var entries := Entries(config);
    forall m | 0 <= m < |entries|
      ensures entries[m].Setting? ==> entries[m].key == config.keys[m] && !IsCommentKey(config.keys[m])
    {
      EntriesClassify(config, m);
    }
  }

  /** `literal_eval(value)`; a key without a value gives `None`, which
      `literal_eval` refuses. */
  function Literal(eval: Evaluator, value: Option<string>): Option<Scalar>
  {
    if value.None? then None else eval(value.value)
  }

  /** Every default has a help text. */
  ghost predicate Documented(defaults: OrderedMap<Scalar>, help: map<string, string>)
  {
    && defaults.Valid()
    && (forall k :: k in defaults.values ==> k in help)
  }

  /** The defaults and help texts after a conversion, and the key whose value
      did not convert, if any. */
  datatype Conversion = Conversion(defaults: OrderedMap<Scalar>, help: map<string, string>, failed: Option<string>)

  /** `_convert_defaults` from the `i`-th entry on, with `msgs` buffered: a
      comment adds its text to the buffer, a setting becomes a default with
      the joined buffer as help and empties the buffer. A value that does not
      convert stops the loop, leaving the earlier writes. */
  function ConvertFrom(entries: seq<Entry>, eval: Evaluator, i: nat, msgs: seq<string>,
                       defaults: OrderedMap<Scalar>, help: map<string, string>): (r: Conversion)
    requires defaults.Valid() && i <= |entries|
    ensures r.defaults.Valid()
    ensures defaults.values.Keys <= r.defaults.values.Keys && help.Keys <= r.help.Keys
    decreases |entries| - i
  {
    if i == |entries| then Conversion(defaults, help, None)
    else match entries[i]
      case Comment(text) => ConvertFrom(entries, eval, i + 1, msgs + [text], defaults, help)
      case Setting(key, value) =>
        var literal := Literal(eval, value);
        if literal.None? then Conversion(defaults, help, Some(key))
        else ConvertFrom(entries, eval, i + 1, [], defaults.Put(key, literal.value), help[key := JoinMsgAsWritten(msgs)])
  }

  /** The conversion keeps every default documented: each new default gets
      a help text. */
  lemma {:induction false} ConvertDocumented(entries: seq<Entry>, eval: Evaluator, i: nat, msgs: seq<string>,
                                             defaults: OrderedMap<Scalar>, help: map<string, string>)
    requires i <= |entries| && Documented(defaults, help)
    ensures var r := ConvertFrom(entries, eval, i, msgs, defaults, help);
      Documented(r.defaults, r.help)
    decreases |entries| - i
  {
    if i < |entries| {
      match entries[i]
      case Comment(text) =>
        ConvertDocumented(entries, eval, i + 1, msgs + [text], defaults, help);
      case Setting(key, value) =>
        var literal := Literal(eval, value);
        if literal.Some? {
          ConvertDocumented(entries, eval, i + 1, [], defaults.Put(key, literal.value), help[key := JoinMsgAsWritten(msgs)]);
        }
    }
  }

  /** The comment texts right before position `j`, up to the previous
      setting. */
  function CommentsBefore(entries: seq<Entry>, j: nat): seq<string>
    requires j <= |entries|
  {
    if j == 0 || entries[j - 1].Setting? then [] else CommentsBefore(entries, j - 1) + [entries[j - 1].text]
  }

  /** From position `i` on, the conversion writes only the keys of settings. */
  lemma {:induction false} ConvertLeaves(entries: seq<Entry>, eval: Evaluator, i: nat, msgs: seq<string>,
                                         defaults: OrderedMap<Scalar>, help: map<string, string>, k: string)
    requires defaults.Valid() && i <= |entries|
    requires forall m :: i <= m < |entries| && entries[m].Setting? ==> entries[m].key != k
    ensures var r := ConvertFrom(entries, eval, i, msgs, defaults, help);
      && (k in r.defaults.values <==> k in defaults.values)
      && (k in defaults.values ==> r.defaults.values[k] == defaults.values[k])
      && (k in r.help <==> k in help)
      && (k in help ==> r.help[k] == help[k])
    decreases |entries| - i
  {
    if i < |entries| {
      match entries[i]
      case Comment(text) =>
        ConvertLeaves(entries, eval, i + 1, msgs + [text], defaults, help, k);
      case Setting(key, value) =>
        var literal := Literal(eval, value);
        if literal.Some? {
          ConvertLeaves(entries, eval, i + 1, [], defaults.Put(key, literal.value), help[key := JoinMsgAsWritten(msgs)], k);
        }
    }
  }

  /** The conversion step at a setting whose value converts writes its key,
      and the later steps leave it alone. */
  lemma ConvertWritesHere(entries: seq<Entry>, eval: Evaluator, i: nat, msgs: seq<string>,
                          defaults: OrderedMap<Scalar>, help: map<string, string>)
    requires defaults.Valid() && i < |entries| && DistinctSettings(entries)
    requires entries[i].Setting? && Literal(eval, entries[i].value).Some?
    ensures var r := ConvertFrom(entries, eval, i, msgs, defaults, help);
      var key := entries[i].key;
      && key in r.defaults.values && r.defaults.values[key] == Literal(eval, entries[i].value).value
      && key in r.help && r.help[key] == JoinMsgAsWritten(msgs)
  {
    var key := entries[i].key;
    var literal := Literal(eval, entries[i].value);
    var defaults' := defaults.Put(key, literal.value);
    var help' := help[key := JoinMsgAsWritten(msgs)];
    assert ConvertFrom(entries, eval, i, msgs, defaults, help) == ConvertFrom(entries, eval, i + 1, [], defaults', help');
    ConvertLeaves(entries, eval, i + 1, [], defaults', help', key);
  }

  /** When the conversion gets through, the setting at position `j` holds its
      converted value and, as help, the join of the comments right before
      it. */
  lemma {:induction false} ConvertWrites(entries: seq<Entry>, eval: Evaluator, i: nat, msgs: seq<string>,
                                         defaults: OrderedMap<Scalar>, help: map<string, string>, j: nat)
    requires defaults.Valid() && i <= j < |entries| && DistinctSettings(entries)
    requires msgs == CommentsBefore(entries, i)
    requires entries[j].Setting?
    requires ConvertFrom(entries, eval, i, msgs, defaults, help).failed.None?
    ensures var r := ConvertFrom(entries, eval, i, msgs, defaults, help);
      var key := entries[j].key;
      && Literal(eval, entries[j].value).Some?
      && key in r.defaults.values && r.defaults.values[key] == Literal(eval, entries[j].value).value
      && key in r.help && r.help[key] == JoinMsgAsWritten(CommentsBefore(entries, j))
    decreases j - i
  {
    var r := ConvertFrom(entries, eval, i, msgs, defaults, help);
    match entries[i]
    case Comment(text) =>
      var msgs' := msgs + [text];
      assert r == ConvertFrom(entries, eval, i + 1, msgs', defaults, help);
      assert msgs' == CommentsBefore(entries, i + 1);
      ConvertWrites(entries, eval, i + 1, msgs', defaults, help, j);
    case Setting(key, value) =>
      var literal := Literal(eval, value);
      assert literal.Some?;
      if i == j {
        ConvertWritesHere(entries, eval, i, msgs, defaults, help);
      } else {
        var defaults' := defaults.Put(key, literal.value);
        var help' := help[key := JoinMsgAsWritten(msgs)];
        assert r == ConvertFrom(entries, eval, i + 1, [], defaults', help');
        assert CommentsBefore(entries, i + 1) == [];
        ConvertWrites(entries, eval, i + 1, [], defaults', help', j);
      }
  }

  /** The keys the conversion adds from position `i` on, in the order of the
      entries: each setting key not yet among `held`, up to the first setting
      whose value does not convert. */
  function AddedKeys(entries: seq<Entry>, eval: Evaluator, i: nat, held: seq<string>): seq<string>
    requires i <= |entries|
    decreases |entries| - i
  {
    if i == |entries| then []
    else match entries[i]
      case Comment(_) => AddedKeys(entries, eval, i + 1, held)
      case Setting(key, value) =>
        if Literal(eval, value).None? then []
        else if key in held then AddedKeys(entries, eval, i + 1, held)
        else [key] + AddedKeys(entries, eval, i + 1, held + [key])
  }

  /** The conversion keeps the names the defaults already had in their
      places and appends the new setting keys in the order of the section. */
  lemma {:induction false} ConvertOrder(entries: seq<Entry>, eval: Evaluator, i: nat, msgs: seq<string>,
                                        defaults: OrderedMap<Scalar>, help: map<string, string>)
    requires defaults.Valid() && i <= |entries|
    ensures ConvertFrom(entries, eval, i, msgs, defaults, help).defaults.keys ==
            defaults.keys + AddedKeys(entries, eval, i, defaults.keys)
    decreases |entries| - i
  {
    if i == |entries| {
      assert defaults.keys + [] == defaults.keys;
    } else {
      match entries[i]
      case Comment(text) =>
        ConvertOrder(entries, eval, i + 1, msgs + [text], defaults, help);
      case Setting(key, value) =>
        var literal := Literal(eval, value);
        if literal.None? {
          assert defaults.keys + [] == defaults.keys;
        } else {
          var defaults' := defaults.Put(key, literal.value);
          ConvertOrder(entries, eval, i + 1, [], defaults', help[key := JoinMsgAsWritten(msgs)]);
          if key !in defaults.keys {
            assert defaults'.keys == defaults.keys + [key];
            var rest := AddedKeys(entries, eval, i + 1, defaults'.keys);
            assert (defaults.keys + [key]) + rest == defaults.keys + ([key] + rest);
          }
        }
    }
  }

  /** A lone `#` line above a setting leaves the buffer `[""]`, and the
      setting's help text comes out empty. */
  lemma BareHashEmptyHelp(eval: Evaluator, key: string, value: string)
    requires !IsCommentKey(key) && eval(value).Some?
    ensures var r := ConvertFrom([Classify("#", None), Classify(key, Some(value))], eval, 0, [], Empty(), map[]);
      r.failed.None? && key in r.help && r.help[key] == ""
  {
    assert LStripChars("#", {'#'}) == "";
    var entries := [Comment(""), Setting(key, Some(value))];
    assert [Classify("#", None), Classify(key, Some(value))] == entries;
    var empty: OrderedMap<Scalar> := Empty();
    var r := ConvertFrom(entries, eval, 0, [], empty, map[]);
    assert [] + [""] == [""];
    assert r == ConvertFrom(entries, eval, 1, [""], empty, map[]);
    var help := map[key := JoinMsgAsWritten([""])];
    assert r == ConvertFrom(entries, eval, 2, [], empty.Put(key, eval(value).value), help);
  }

  /** Comment keys never become defaults: the conversion gives a comment key
      neither a default nor a help text it did not have. */
  lemma CommentKeysSkipped(config: OrderedMap<Option<string>>, eval: Evaluator,
                           defaults: OrderedMap<Scalar>, help: map<string, string>, k: string)
    requires config.Valid() && defaults.Valid() && IsCommentKey(k)
    ensures var r := ConvertFrom(Entries(config), eval, 0, [], defaults, help);
      && (k in r.defaults.values <==> k in defaults.values)
      && (k in r.help <==> k in help)
  {
    EntriesOfSection(config, k);
    ConvertLeaves(Entries(config), eval, 0, [], defaults, help, k);
  }

  /** Every setting from position `i` on has a value that converts. */
  ghost predicate ConvertibleFrom(entries: seq<Entry>, eval: Evaluator, i: nat)
  {
    forall m :: i <= m < |entries| && entries[m].Setting? ==> Literal(eval, entries[m].value).Some?
  }

  /** Position `m` holds the first setting from position `i` on whose value
      does not convert. */
  ghost predicate FirstUnconvertible(entries: seq<Entry>, eval: Evaluator, i: nat, m: nat)
  {
    && i <= m < |entries| && entries[m].Setting?
    && Literal(eval, entries[m].value).None?
    && forall m' :: i <= m' < m && entries[m'].Setting? ==> Literal(eval, entries[m'].value).Some?
  }

  /** The conversion gets through exactly when every setting's value
      converts. */
  lemma {:induction false} ConvertSucceedsIff(entries: seq<Entry>, eval: Evaluator, i: nat, msgs: seq<string>,
                                              defaults: OrderedMap<Scalar>, help: map<string, string>)
    requires defaults.Valid() && i <= |entries|
    ensures ConvertFrom(entries, eval, i, msgs, defaults, help).failed.None? <==> ConvertibleFrom(entries, eval, i)
    decreases |entries| - i
  {
    if i < |entries| {
      match entries[i]
      case Comment(text) =>
        ConvertSucceedsIff(entries, eval, i + 1, msgs + [text], defaults, help);
      case Setting(key, value) =>
        var literal := Literal(eval, value);
        if literal.Some? {
          ConvertSucceedsIff(entries, eval, i + 1, [], defaults.Put(key, literal.value), help[key := JoinMsgAsWritten(msgs)]);
        }
    }
  }

  /** When the conversion stops, it stops at the first setting whose value
      does not convert, and names its key. */
  lemma {:induction false} ConvertStopsAtFirst(entries: seq<Entry>, eval: Evaluator, i: nat, msgs: seq<string>,
                                               defaults: OrderedMap<Scalar>, help: map<string, string>)
    requires defaults.Valid() && i <= |entries|
    requires ConvertFrom(entries, eval, i, msgs, defaults, help).failed.Some?
    ensures exists m: nat :: && FirstUnconvertible(entries, eval, i, m)
                             && entries[m].key == ConvertFrom(entries, eval, i, msgs, defaults, help).failed.value
    decreases |entries| - i
  {
    var failed := ConvertFrom(entries, eval, i, msgs, defaults, help).failed.value;
    match entries[i]
    case Comment(text) =>
      ConvertStopsAtFirst(entries, eval, i + 1, msgs + [text], defaults, help);
      var m: nat :| FirstUnconvertible(entries, eval, i + 1, m) && entries[m].key == failed;
      assert FirstUnconvertible(entries, eval, i, m);
    case Setting(key, value) =>
      var literal := Literal(eval, value);
      if literal.Some? {
        ConvertStopsAtFirst(entries, eval, i + 1, [], defaults.Put(key, literal.value), help[key := JoinMsgAsWritten(msgs)]);
        var m: nat :| FirstUnconvertible(entries, eval, i + 1, m) && entries[m].key == failed;
        assert FirstUnconvertible(entries, eval, i, m);
      } else {
        assert FirstUnconvertible(entries, eval, i, i);
      }
  }

  // ---------------------------------------------------------------------------
  // The parser object

  /** The reading state of a `ConfigArgumentParser`. */
  datatype Reading = Reading(pattern: SectionPattern, config: OrderedMap<Option<string>>,
                             defaults: OrderedMap<Scalar>, help: map<string, string>)
  {
    ghost predicate Valid()
    {
      config.Valid() && Documented(defaults, help)
    }
  }

  /** A reading step: the new state and the exception raised, if any. */
  datatype Step = Step(state: Reading, error: Option<Failure>)

  /** `_convert_defaults()`. */
  function Convert(s: Reading, eval: Evaluator): (r: Step)
    requires s.Valid()
    ensures r.state.Valid()
    ensures r.state.pattern == s.pattern && r.state.config == s.config
  {
    ConvertDocumented(Entries(s.config), eval, 0, [], s.defaults, s.help);
    var c := ConvertFrom(Entries(s.config), eval, 0, [], s.defaults, s.help);
    Step(Reading(s.pattern, s.config, c.defaults, c.help),
         if c.failed.Some? then Some(Unconvertible(c.failed.value)) else None)
  }

  /** `read_string(text)`: the text is read with the current section pattern;
      when that works the section is converted. */
  function ReadStringStep(s: Reading, text: string, ini: IniReader, eval: Evaluator): (r: Step)
    requires s.Valid()
    ensures r.state.Valid()
    ensures r.state.pattern == s.pattern
  {
    match ini(s.pattern, text)
    case None => Step(s, Some(MalformedConfig))
    case Some(entries) => Convert(s.(config := Merge(s.config, entries)), eval)
  }

  /** `read(filenames)`: also returns the names of the files read. */
  function ReadStep(s: Reading, files: seq<SourceFile>, ini: IniReader, eval: Evaluator): (r: (Step, seq<string>))
    requires s.Valid()
    ensures r.0.state.Valid()
    ensures r.0.state.pattern == s.pattern
  {
    var (config, names, ok) := ReadFiles(s.config, s.pattern, ini, files);
    if ok then (Convert(s.(config := config), eval), names)
    else (Step(s.(config := config), Some(MalformedConfig)), names)
  }

  /** `read_py(filename)`: the file is read with the `# [section]` pattern,
      which is put back to configparser's own only when reading and
      conversion both get through. */
  function ReadPyStep(s: Reading, file: SourceFile, ini: IniReader, eval: Evaluator): (r: Step)
    requires s.Valid()
    ensures r.state.Valid()
  {
    var read := ReadStep(s.(pattern := CommentHeader), [file], ini, eval).0;
    if read.error.None? then Step(read.state.(pattern := BracketHeader), None) else read
  }

  /** `"[DEFAULT]\n"` in place of the first source line, then everything
      joined. */
  function ObjectText(lines: seq<string>): string
    requires lines != []
  {
    Concat(["[DEFAULT]\n"] + lines[1..])
  }

  /** The text read for an object is its source with the first line, and
      only it, replaced by the DEFAULT section header. */
  lemma ObjectTextReplacesFirstLine(lines: seq<string>)
    requires lines != []
    ensures |lines[0]| <= |Concat(lines)|
    ensures ObjectText(lines) == "[DEFAULT]\n" + Concat(lines)[|lines[0]|..]
  {
    assert (["[DEFAULT]\n"] + lines[1..])[1..] == lines[1..];
    assert Concat(lines) == lines[0] + Concat(lines[1..]);
  }

  /** `_read_obj(obj)` on the class's source lines. */
  function ReadObjStep(s: Reading, lines: seq<string>, ini: IniReader, eval: Evaluator): (r: Step)
    requires s.Valid()
    ensures r.state.Valid()
    ensures r.state.pattern == s.pattern
  {
    if lines == [] then Step(s, Some(NoSourceLines))
    else ReadStringStep(s, ObjectText(lines), ini, eval)
  }

  /** `read_py` leaves configparser's own section pattern in place when it
      returns, and the `# [section]` pattern when it raises. */
  lemma ReadPyRestores(s: Reading, file: SourceFile, ini: IniReader, eval: Evaluator)
    requires s.Valid()
    ensures ReadPyStep(s, file, ini, eval).error.None? ==> ReadPyStep(s, file, ini, eval).state.pattern == BracketHeader
    ensures ReadPyStep(s, file, ini, eval).error.Some? ==> ReadPyStep(s, file, ini, eval).state.pattern == CommentHeader
  {
  }

  class ConfigArgumentParser {
    var pattern: SectionPattern
    var config: OrderedMap<Option<string>>
    var defaults: OrderedMap<Scalar>
    var help: map<string, string>
    var args: OrderedMap<Scalar>
    var parser: ArgumentParser

    function State(): Reading
      reads this
    {
      Reading(pattern, config, defaults, help)
    }

    ghost predicate Valid()
      reads this, parser
    {
      State().Valid() && args.Valid() && parser.Valid()
    }

    constructor ()
      ensures Valid() && fresh(parser) && parser.actions == []
      ensures State() == Reading(BracketHeader, Empty(), Empty(), map[]) && args == Empty()
    {
      pattern := BracketHeader;
      config := Empty();
      defaults := Empty();
      help := map[];
      args := Empty();
      parser := new ArgumentParser();
    }

    /** `_convert_defaults()`. */
    method ConvertDefaults(eval: Evaluator) returns (err: Option<Failure>)
      requires Valid()
      modifies this
      ensures Valid() && parser == old(parser) && args == old(args)
      ensures Step(State(), err) == Convert(old(State()), eval)
    {
      var failed := ConvertKeys(eval);
      err := if failed.Some? then Some(Unconvertible(failed.value)) else None;
      ConvertDocumented(Entries(config), eval, 0, [], old(defaults), old(help));
    }

    /** The loop of `_convert_defaults` with its comment buffer: returns the
        key whose value does not convert, if any. */
    method ConvertKeys(eval: Evaluator) returns (failed: Option<string>)
      requires config.Valid() && defaults.Valid()
      modifies this
      ensures pattern == old(pattern) && config == old(config) && parser == old(parser) && args == old(args)
      ensures Conversion(defaults, help, failed) == ConvertFrom(Entries(config), eval, 0, [], old(defaults), old(help))
    {
      var entries := Entries(config);
      var msgs: seq<string> := [];
      var d, h := defaults, help;
      var i := 0;
      while i < |entries|
        invariant i <= |entries| && d.Valid()
        invariant ConvertFrom(entries, eval, i, msgs, d, h) == ConvertFrom(entries, eval, 0, [], defaults, help)
        decreases |entries| - i
      {
        ghost var before := ConvertFrom(entries, eval, i, msgs, d, h);
        match entries[i] {
          case Comment(text) =>
            msgs := msgs + [text];
          case Setting(key, value) =>
            var literal := Literal(eval, value);
            if literal.None? {
              assert before == Conversion(d, h, Some(key));
              defaults, help := d, h;
              return Some(key);
            }
            d := d.Put(key, literal.value);
            h := h[key := JoinMsgAsWritten(msgs)];
            msgs := [];
        }
        assert before == ConvertFrom(entries, eval, i + 1, msgs, d, h);
        i := i + 1;
      }
      defaults, help := d, h;
      failed := None;
    }

    /** `read_string(string)`. */
    method ReadString(text: string, ini: IniReader, eval: Evaluator) returns (err: Option<Failure>)
      requires Valid()
      modifies this
      ensures Valid() && parser == old(parser) && args == old(args)
      ensures Step(State(), err) == ReadStringStep(old(State()), text, ini, eval)
    {
      var entries := ini(pattern, text);
      if entries.None? {
        return Some(MalformedConfig);
      }
      config := Merge(config, entries.value);
      err := ConvertDefaults(eval);
    }

    /** `read(filenames)`: returns the names of the files read. */
    method Read(files: seq<SourceFile>, ini: IniReader, eval: Evaluator) returns (names: seq<string>, err: Option<Failure>)
      requires Valid()
      modifies this
      ensures Valid() && parser == old(parser) && args == old(args)
      ensures (Step(State(), err), names) == ReadStep(old(State()), files, ini, eval)
    {
      var read := ReadFiles(config, pattern, ini, files);
      config, names := read.0, read.1;
      if !read.2 {
        return names, Some(MalformedConfig);
      }
      err := ConvertDefaults(eval);
    }

    /** `read_py(filename)`: swaps the section pattern in for the reading. */
    method ReadPy(file: SourceFile, ini: IniReader, eval: Evaluator) returns (err: Option<Failure>)
      requires Valid()
      modifies this
      ensures Valid() && parser == old(parser) && args == old(args)
      ensures Step(State(), err) == ReadPyStep(old(State()), file, ini, eval)
    {
      pattern := CommentHeader;
      var names;
      names, err := Read([file], ini, eval);
      if err.Some? {
        return;
      }
      pattern := BracketHeader;
    }

    /** `_read_obj(obj)`, given the source lines of the object's class. */
    method ReadObj(lines: seq<string>, ini: IniReader, eval: Evaluator) returns (err: Option<Failure>)
      requires Valid()
      modifies this
      ensures Valid() && parser == old(parser) && args == old(args)
      ensures Step(State(), err) == ReadObjStep(old(State()), lines, ini, eval)
    {
      if lines == [] {
        return Some(NoSourceLines);
      }
      var source := ["[DEFAULT]\n"] + lines[1..];
      err := ReadString(Concat(source), ini, eval);
    }

    /** `_add_arguments(shorts)`. */
    method AddArguments(shorts: string) returns (err: Option<Failure>)
      requires Valid()
      modifies parser
      ensures Valid()
      ensures var reg := RegisterFrom(old(parser.actions), defaults, help, shorts, 0);
        && parser.actions == reg.actions
        && err == if reg.error.Some? then Some(Refused(reg.error.value)) else None
    {
      var e := Flags.AddArguments(parser, defaults, help, shorts);
      err := if e.Some? then Some(Refused(e.value)) else None;
    }

    /** `_parse_args(args)`: a parse that exits leaves `args` as it was. */
    method ParseArgsOnly(occs: seq<Occurrence>) returns (err: Option<Failure>)
      requires Valid()
      modifies this
      ensures Valid() && State() == old(State()) && parser == old(parser)
      ensures var parsed := Parse(parser.actions, occs);
        if parsed.Ok? then args == parsed.value && err.None?
        else args == old(args) && err == Some(Usage(parsed.error))
    {
      var parsed := parser.ParseArgs(occs);
      if parsed.Err? {
        return Some(Usage(parsed.error));
      }
      ParseFromValid(InitialNamespace(parser.actions), parser.actions, occs);
      args := parsed.value;
      err := None;
    }

    /** `parse_args(args, shorts=shorts)`. */
    method ParseArgs(occs: seq<Occurrence>, shorts: string) returns (err: Option<Failure>)
      requires Valid()
      modifies this, parser
      ensures Valid() && State() == old(State()) && parser == old(parser)
      ensures var run := RegisterThenParse(old(parser.actions), defaults, help, shorts, occs);
        && parser.actions == run.actions
        && if run.outcome.Ok? then args == run.outcome.value && err.None?
           else args == old(args) && err == Some(run.outcome.error)
    {
      err := AddArguments(shorts);
      if err.Some? {
        return;
      }
      err := ParseArgsOnly(occs);
    }

    /** `_change_obj(obj)`. */
    method ChangeObj(obj: Instance)
      requires Valid() && obj.Valid()
      modifies obj
      ensures obj.Valid() && obj.attrs == old(obj.attrs).UpdateWith(args)
    {
      obj.Update(args);
    }

    /** `parse_obj(obj, args, shorts=shorts)`, given the source lines of the
        object's class. */
    method ParseObj(obj: Instance, lines: seq<string>, occs: seq<Occurrence>, shorts: string,
                    ini: IniReader, eval: Evaluator) returns (err: Option<Failure>)
      requires Valid() && obj.Valid()
      modifies this, parser, obj
      ensures Valid() && obj.Valid() && parser == old(parser)
      ensures var read := ReadObjStep(old(State()), lines, ini, eval);
        && State() == read.state
        && if read.error.Some? then
             err == read.error && args == old(args) && parser.actions == old(parser.actions) && obj.attrs == old(obj.attrs)
           else
             var run := RegisterThenParse(old(parser.actions), read.state.defaults, read.state.help, shorts, occs);
             && parser.actions == run.actions
             && if run.outcome.Ok? then
                  err.None? && args == run.outcome.value && obj.attrs == old(obj.attrs).UpdateWith(args)
                else
                  err == Some(run.outcome.error) && args == old(args) && obj.attrs == old(obj.attrs)
    {
      err := ReadObj(lines, ini, eval);
      if err.Some? {
        return;
      }
      err := ParseArgs(occs, shorts);
      if err.Some? {
        return;
      }
      ChangeObj(obj);
    }
  }

  /** Every default of a parser has a help text, so `_add_arguments` never
      fails on a missing one. */
  lemma NoMissingHelp(s: Reading, actions: seq<FlagSpec>, shorts: string)
    requires s.Valid()
    ensures !RegisterFrom(actions, s.defaults, s.help, shorts, 0).error.Some? ||
            !RegisterFrom(actions, s.defaults, s.help, shorts, 0).error.value.MissingHelp?
  {
    CoveredNeverMissingHelp(actions, s.defaults, s.help, shorts, 0);
  }
}

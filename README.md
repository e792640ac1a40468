# configargparser in Dafny

configargparser builds an `argparse` command-line interface from defaults
found somewhere else. It has three parser classes:

- `ConfigArgumentParser` (`configargparser/cap.py`) reads the DEFAULT section
  of an INI text. It can take that text from a string, from files, from
  a Python script whose section header is `# [DEFAULT]`, or from a class's
  own source. Comment lines are kept as keys of their own and become the help
  text of the next real key.
- `TypeArgumentParser` (`configargparser/tap.py`) copies a dataclass object's
  attribute dict and walks the class source. Each comment line is buffered,
  and every other line hands the buffer to the next attribute name.
- `GlobalArgumentParser` (`configargparser/gap.py`) takes the plain variables
  of the calling module's globals and gives each the help text of its own
  name.

All three classes then register one flag per default, in order. The long flag
is `--name` with `_` turned into `-`. The `i`-th default also gets the short
flag `-shorts[i]`. A boolean default gets a store action that yields its
negation. Any other default gets a typed store with `type=type(default)`.
The parsed arguments are written back into the object or into the globals.

The model has one module per concern:

| module | file | models |
|---|---|---|
| `Wrappers` | `wrappers.dfy` | `Option` and `Result` for error paths |
| `Text` | `text.dfy` | `str.strip`, `str.lstrip(chars)`, `startswith`, one-character `replace`, `" ".join`, `"".join` |
| `Scalars` | `scalars.dfy` | the four default kinds and argparse's `type=type(default)` conversion of a token |
| `OrderedMaps` | `ordered_maps.dfy` | Python's insertion-ordered `dict`, `d[k] = v` and `dict.update` |
| `Comments` | `comments.dfy` | `_join_msg`, as written and corrected |
| `Flags` | `flags.dfy` | `_add_arguments`, shared verbatim by the three classes; the part of argparse it relies on (conflicting option strings, destination names, store actions); `parse_args` over the registered flags |
| `Pipeline` | `pipeline.dfy` | `_add_arguments` then `_parse_args`, and the exceptions each parser can let through |
| `PyObjects` | `pyobjects.dfy` | an object's `__dict__` and a module's globals dict, both updated in place |
| `Cap`, `Tap`, `Gap` | `cap.dfy`, `tap.dfy`, `gap.dfy` | the three parser classes |
| `Scenario` | `scenario.dfy` | the four defaults of the repository's tests and what `-b -f 1` with `shorts="sfb"` makes of them |

Each parser class is a Dafny `class` with the fields the Python class updates:
`defaults`, `help`, `args` and `parser`. Cap also has `config` and the section
pattern. Gap also has the shared globals dict `_globals` (`scope`). Methods
change those fields under `modifies` clauses. Each method is tied to a
specification function on values:
- Cap's reading methods to `ReadStringStep`, `ReadStep`, `ReadPyStep` and `ReadObjStep`;
- their loop to `ConvertFrom`;
- Tap's loop to `Associate`;
- registration to `RegisterFrom`;
- parsing to `Parse`.

The lemmas state what the design promises about those functions.

Some behaviour of the code is easy to miss, and the model keeps it:

- The argparse parser is never reset. A second `parse_args` or `parse_obj`
  on the same object registers the same flags again, and argparse refuses
  that (`SecondRegistrationRefused`, `SecondRunRefused`).
- In Cap and Tap, `help` is never cleared. A second read keeps the help texts
  of the first. Gap rebuilds `help` from the names on every read.
- In Tap, every line after the first one that is not a comment moves the key
  iterator on. Blank lines count too. More such lines than attributes raise
  `StopIteration` (`Associate`, `AssociateExhaustedIff`).
- `_join_msg` gives `" "` only for an empty buffer. A bare `#` line as the
  only comment since the previous setting leaves the buffer `[""]`, and the
  next key gets the empty help text (`Cap.BareHashEmptyHelp`,
  `Tap.BareHashEmptyHelp`). The model keeps the code's join.
- A default is returned under the name it was registered with only when that
  name is plain: non-empty, not starting with `_`, without `-`
  (`PlainDest`). `a_b` and `a-b` clash on one long flag
  (`HyphenCollisionRefused`).
- `read_py` restores configparser's own section header only when reading and
  conversion succeed. An exception leaves the `# [section]` pattern installed
  (`ReadPyRestores`).

## Model

| member | source | states |
|---|---|---|
| `Comments.JoinMsgAsWritten` | configargparser/cap.py:53-58 | `_join_msg` as written: the help text is empty exactly for the buffer `[""]`, is `" "` for an empty buffer, and otherwise starts with the first message |
| `Comments.JoinMsgAsWrittenCanBeEmpty` | configargparser/cap.py:53-58 | the buffer `[""]`, left by a bare `#` line, gives the empty help string the fallback is meant to avoid |
| `Comments.JoinMsgNeverEmpty` | configargparser/cap.py:53-58 | the corrected help text is never empty, is `" "` for an empty buffer, and equals the as-written one wherever that is non-empty |
| `Text.LStripCharsDrops` | configargparser/cap.py:45 | `lstrip(chars)` keeps a suffix, drops only characters of `chars`, and what it keeps does not start with one |
| `Text.LStripSpaceDrops` | configargparser/cap.py:46 | `lstrip()` keeps a suffix, drops only whitespace, and what it keeps does not start with whitespace |
| `Text.RStripSpaceDrops` | configargparser/cap.py:46 | `rstrip()` keeps a prefix, drops only whitespace, and what it keeps does not end with whitespace |
| `Text.StripWhole` | configargparser/tap.py:40 | a `strip()` that removes nothing gives back the string itself |
| `Text.StripSpaces` | configargparser/cap.py:46 | `strip()` leaves no whitespace at either end, and is empty exactly for an all-whitespace string |
| `Text.ReplaceCharPointwise` | configargparser/cap.py:89 | `replace('_', '-')` changes every `_` and keeps every other character in place |
| `Text.JoinSpace` | configargparser/cap.py:56 | `" ".join` is empty exactly for no parts or the single part `""`, and starts with the first part |
| `Text.JoinSpaceAppend` | configargparser/cap.py:47 | a buffer joined after one more message is the old join, a space and that message |
| `Text.Concat` | configargparser/cap.py:135 | `"".join(lines)` starts with the first line |
| `Scalars.Coerce` | configargparser/cap.py:100 | a converted token has the kind of the default, and a string default takes the token unchanged |
| `Scalars.CoerceFloatFromIntegerText` | tests/test_cap.py:79-82 | a float default given the token `1` becomes the float 1.0, not the integer 1 |
| `OrderedMaps.OrderedMap.Put` | configargparser/cap.py:49 | `d[k] = v` keeps a valid dict; an existing key keeps its place, a new one goes last |
| `OrderedMaps.OrderedMap.UpdateWith` | configargparser/cap.py:140 | `dict.update`: the keys of both, the other's values where it has them, old values elsewhere; old keys keep their order and new ones follow in the other's order |
| `OrderedMaps.PutAllKeys` | configargparser/tap.py:86 | the key order after `update` is the old order followed by the other's missing keys |
| `OrderedMaps.UpdateWithHeld` | configargparser/tap.py:84-86 | updating a dict with entries it already holds changes nothing |
| `PyObjects.Instance.Update` | configargparser/cap.py:138-140 | `obj.__dict__` becomes its old value updated with the arguments |
| `PyObjects.Globals.Update` | configargparser/gap.py:77-79 | the globals dict becomes its old value updated with the arguments, as plain values |
| `PyObjects.AsGlobals` | configargparser/gap.py:79 | the arguments as global values: same keys in the same order, each value wrapped |
| `Flags.FlagSpec.OptionStrings` | configargparser/cap.py:89-91 | `*flags` is never empty and ends with the long flag `--name` |
| `Flags.ActionFor` | configargparser/cap.py:87-101 | the flag's default is the value itself; a boolean gets a toggle whose stored value is its negation; anything else gets a store of the default's type |
| `Flags.Synthesize` | configargparser/cap.py:88-101 | one flag per default in order: the `j`-th flag has the `j`-th name, short letter `shorts[j]` if there is one, its action and the help text of its name |
| `Flags.DeriveDest` | configargparser/cap.py:89-91 | argparse's destination name holds no `-` and is no longer than the option string it comes from |
| `Flags.Admit` | configargparser/cap.py:93-101 | a flag `add_argument` accepts has a non-empty destination; a conflict it reports names an option string of the flag that is already taken |
| `Flags.AdmitIff` | configargparser/cap.py:93-101 | `add_argument` accepts a flag exactly when its destination is non-empty and none of its option strings is taken |
| `Flags.FirstTaken` | configargparser/cap.py:93-101 | argparse's conflict check finds an option string already taken exactly when there is one |
| `Flags.ClaimedIff` | configargparser/cap.py:93-101 | an option string is claimed exactly when some registered flag carries it |
| `Flags.AdmitRefusal` | configargparser/cap.py:93-101 | a flag `add_argument` refuses leaves no well-registered parser after it |
| `Flags.AdmitAcceptance` | configargparser/cap.py:93-101 | a flag `add_argument` accepts keeps the parser well registered |
| `Flags.ArgumentParser.AddArgument` | configargparser/cap.py:93-101 | `add_argument` returns the conflict error if there is one, and otherwise appends the flag, keeping the parser well registered |
| `Flags.RegisterFromOutcome` | configargparser/cap.py:88-101 | registration succeeds exactly when every default has a help entry and the added flags keep the parser well registered; it then appends exactly the synthesized flags |
| `Flags.RegisterKeepsEarlier` | configargparser/cap.py:88-101 | registration only appends: the old flags stay first, at most one flag per default follows, and exactly one per default when nothing fails |
| `Flags.LeadingShorts` | configargparser/cap.py:90 | `shorts` cut to `n` letters gives every one of the first `n` defaults the same short letter, or none, as the whole string |
| `Flags.ShortsReadUpTo` | configargparser/cap.py:88-91 | two letter strings that agree on the defaults still to come register the same flags with the same outcome |
| `Flags.ExtraShortsIgnored` | configargparser/cap.py:88-91 | letters of `shorts` beyond the number of defaults are ignored: registration and the synthesized flags are those of the leading letters alone |
| `Flags.RegisteredFlags` | configargparser/cap.py:81-101 | after a successful `_add_arguments` the parser holds its old flags followed by exactly the synthesized ones |
| `Flags.AddArguments` | configargparser/cap.py:81-101 | the registration loop leaves the flags and the error `RegisterFrom` describes, including the flags added before a refusal |
| `Flags.CoveredNeverMissingHelp` | configargparser/cap.py:96 | with a help text for every default, `self.help[option]` never raises |
| `Flags.HyphenCollisionRefused` | configargparser/cap.py:89 | two defaults whose names hyphenate alike, such as `a_b` and `a-b`, make registration on a fresh parser fail |
| `Flags.LongFlagOffered` | configargparser/cap.py:89 | every flag offers its long option string |
| `Flags.SharedLongFlag` | configargparser/cap.py:89 | two flags with the same long option string are not distinct |
| `Flags.SecondRegistrationRefused` | configargparser/cap.py:103-106 | the parser is made once, so registering the same non-empty defaults a second time fails |
| `Flags.LongFlagStripped` | configargparser/cap.py:89 | stripping the leading `-` of the long flag of a plain name gives the hyphenated name |
| `Flags.PlainDest` | configargparser/cap.py:89 | the destination argparse derives for a plain name is the name itself: `--a-float` stores into `a_float` |
| `Flags.LongFlagInjective` | configargparser/cap.py:89 | plain names with the same long flag are the same name |
| `Flags.LongFlagNotHelp` | configargparser/cap.py:89 | the long flag of a plain name other than `help` is not one of argparse's help flags |
| `Flags.SpecAvoidsHelp` | configargparser/cap.py:89-91 | a flag with a plain name other than `help` and a short letter other than `h` clashes with neither `-h` nor `--help` |
| `Flags.SynthesizedOption` | configargparser/cap.py:89-91 | every option string of the `j`-th flag is its short flag or the long flag of the `j`-th name |
| `Flags.SynthesizedAvoidHelp` | configargparser/cap.py:89-91 | no synthesized flag clashes with `-h/--help` |
| `Flags.SynthesizedDistinct` | configargparser/cap.py:89-91 | with distinct short letters, no two synthesized flags share an option string |
| `Flags.SynthesizedDests` | configargparser/cap.py:89 | each synthesized flag stores into its own default's name |
| `Flags.SynthesizedWellRegistered` | configargparser/cap.py:88-101 | the synthesized flags together form a well-registered parser |
| `Flags.RegistrationSucceeds` | configargparser/cap.py:88-101 | on a fresh parser with registrable defaults, registration fails exactly when a default has no help entry |
| `Flags.Lookup` | configargparser/cap.py:113 | the flag found for an option string is registered and carries it; when none is found, no flag carries it |
| `Flags.LookupFinds` | configargparser/cap.py:113 | in a well-registered parser every option string names exactly its own flag |
| `Flags.ParseFromValid` | configargparser/cap.py:113-114 | a successful parse gives a valid namespace |
| `Flags.DefaultsFromSpecs` | configargparser/cap.py:88-101 | the namespace before any flag is read holds the defaults, in their order |
| `Flags.NothingGivenYieldsDefaults` | tests/test_cap.py:70-77 | with nothing on the command line the parsed arguments equal the defaults |
| `Flags.Parse` | configargparser/cap.py:108-115 | `parse_args` gives a valid namespace only when every option string given belongs to a registered flag and none asks for help |
| `Flags.ParseOkKnown` | configargparser/cap.py:113 | from any namespace, a parse gets through only when every option string given is registered and not a help flag |
| `Flags.UnknownDeferred` | configargparser/cap.py:113 | an unknown option string does not stop the parse: an error raised by the later occurrences wins (`--zzz -h` asks for help), and otherwise the option is reported as unrecognized |
| `Flags.FlagStep` | configargparser/cap.py:113 | an occurrence of a registered flag acts as that flag, then parsing goes on |
| `Flags.SingleFlag` | configargparser/cap.py:113 | a single occurrence of a registered flag acts as that flag |
| `Flags.ShortAliasesLong` | configargparser/cap.py:90-91 | a flag's short and long option strings name the same flag |
| `Flags.ParseRespectsAliases` | configargparser/cap.py:113 | parsing depends on which flag each occurrence names, not on the spelling used, for success and error alike |
| `Flags.ShortPairAsLong` | tests/test_cap.py:79-90 | two flags given by their short letters parse as the same flags given by their long names |
| `Flags.RepeatedFlagOnce` | configargparser/cap.py:113 | the same occurrence given twice in a row parses like one |
| `Flags.ParseFromKeepsShape` | configargparser/cap.py:113-114 | a parse from a conforming namespace keeps its names, order and types |
| `Flags.SynthesizedConform` | configargparser/cap.py:88-101 | each synthesized flag stores into a default of its own type |
| `Flags.ParseKeepsNamesAndTypes` | configargparser/cap.py:100 | whatever is given, a successful parse returns the defaults' names in order, each holding a value of its default's type |
| `Flags.BooleanFlagNegates` | configargparser/cap.py:87 | a boolean flag given alone yields the negation of its default; an attached argument is an error |
| `Flags.TypedFlagCoerces` | configargparser/cap.py:98-101 | a typed flag stores its text converted to the default's type; no argument or a text that does not convert is an error |
| `Flags.TwoFlags` | configargparser/cap.py:113 | two occurrences whose first succeeds apply one after the other |
| `Flags.ToggleThenStore` | configargparser/cap.py:92-101 | a boolean flag then a typed flag with a convertible text: the boolean is toggled and the value stored |
| `Flags.BooleanThenTyped` | tests/test_cap.py:86-90 | the same over synthesized flags: `-b -f 1` toggles the boolean default and stores the converted float |
| `Flags.SynthesizedFlag` | configargparser/cap.py:88-101 | the `j`-th synthesized flag stores into the `j`-th name, with the action its default calls for |
| `Flags.SynthesizedShort` | configargparser/cap.py:90-91 | the `j`-th synthesized flag answers to `-shorts[j]` |
| `Pipeline.RegisterThenParse` | configargparser/cap.py:117-129 | the parser ends with the flags registration leaves; the outcome is a registration error exactly when registration fails |
| `Pipeline.FreshParserNoFlags` | tests/test_cap.py:70-77 | on a fresh parser with registrable, documented defaults, registration succeeds and an empty command line gives back the defaults |
| `Pipeline.SecondRunRefused` | configargparser/cap.py:117-129 | a second `parse_args` on the same parser is refused once the first registration succeeded |
| `Pipeline.RunValid` | configargparser/cap.py:108-115 | a successful run gives a valid namespace |
| `Scenario.DefaultsRegistrable` | tests/test_cap.py:86-91 | the four test defaults with `sfb` are registrable |
| `Scenario.PutsOnDefaults` | tests/test_cap.py:92-97 | setting the boolean and the float on the test defaults gives the arguments the tests expect |
| `Scenario.ExampleFlags` | tests/test_cap.py:86-87 | the four test defaults with `sfb` register on a fresh parser |
| `Scenario.ExampleShorts` | tests/test_cap.py:86-88 | the float flag gets `-f` and the boolean flag `-b` |
| `Scenario.ShortTokensExample` | tests/test_cap.py:86-90 | `-b -f 1` sets the boolean and stores the float 1.0 over the defaults |
| `Scenario.LongTokensExample` | tests/test_cap.py:79-84 | `--a-boolean --a-float 1` parses like `-b -f 1` |
| `Scenario.ShortFlagsExample` | tests/test_cap.py:92-97 | `-b -f 1` with `sfb` gives `a_string` `"abc"`, `a_float` 1.0, `a_boolean` true and `an_integer` 0, in order; the long spelling gives the same |
| `Cap.Merge` | configargparser/cap.py:35-36 | reading into the DEFAULT section keeps the earlier key order, adds the new keys, and leaves keys that are not read again untouched |
| `Cap.MergeLast` | configargparser/cap.py:35-36 | with `strict=False` the last value read for a key wins |
| `Cap.ReadFiles` | configargparser/cap.py:65 | `config.read` returns only names of files that opened |
| `Cap.UnopenedFilesSkipped` | configargparser/cap.py:60-65 | files that cannot be opened are skipped without an error |
| `Cap.CommentText` | configargparser/cap.py:45-46 | a comment's text is no longer than its key, strictly shorter for a comment key, and has no whitespace at either end |
| `Cap.Classify` | configargparser/cap.py:44-47 | a key becomes a comment exactly when it starts with `#`; a setting keeps its key and value |
| `Cap.CommentTextDropsHashes` | configargparser/cap.py:45-46 | a comment's text is the key after all of its leading `#`, stripped |
| `Cap.EntriesClassify` | configargparser/cap.py:43-44 | the `i`-th entry is the `i`-th key of the section, as a comment or as a setting |
| `Cap.EntriesOfSection` | configargparser/cap.py:43-44 | no two settings share a key, and no setting has a comment key |
| `Cap.ConvertFrom` | configargparser/cap.py:42-51 | the loop keeps the defaults a valid dict and never drops a default or a help key |
| `Cap.ConvertDocumented` | configargparser/cap.py:40-51 | the conversion keeps every default documented by a help text |
| `Cap.ConvertOrder` | configargparser/cap.py:43-49 | the defaults' key order afterwards is the old order followed by the keys of the converted settings not already present, in config order, up to the first value that does not convert |
| `Cap.BareHashEmptyHelp` | configargparser/cap.py:44-58 | the DEFAULT keys `#` and then a setting whose value converts give that setting the empty help text |
| `Cap.ConvertLeaves` | configargparser/cap.py:48-51 | the conversion writes only the keys of settings |
| `Cap.ConvertWritesHere` | configargparser/cap.py:48-51 | a setting whose value converts gets that value and the buffer joined by `_join_msg` as written, and later steps leave it alone |
| `Cap.ConvertWrites` | configargparser/cap.py:43-51 | when the conversion gets through, each setting holds its converted value and, as help, `_join_msg` as written of the comments right above it |
| `Cap.CommentKeysSkipped` | configargparser/cap.py:44-47 | comment keys get neither a default nor a help text |
| `Cap.ConvertSucceedsIff` | configargparser/cap.py:49 | the conversion gets through exactly when every setting's value converts |
| `Cap.ConvertStopsAtFirst` | configargparser/cap.py:49 | a failed conversion stops at the first setting whose value does not convert and names its key |
| `Cap.Convert` | configargparser/cap.py:40-51 | `_convert_defaults` keeps the reading state valid (every default has a help text) and leaves the section and its pattern alone |
| `Cap.ReadStringStep` | configargparser/cap.py:69-72 | `read_string` keeps the state valid and the section pattern unchanged |
| `Cap.ReadStep` | configargparser/cap.py:60-67 | `read` keeps the state valid and the section pattern unchanged |
| `Cap.ReadPyStep` | configargparser/cap.py:74-79 | `read_py` keeps the state valid |
| `Cap.ReadPyRestores` | configargparser/cap.py:76-79 | after `read_py` the section pattern is configparser's own when it returns, and `# [section]` when it raises |
| `Cap.ObjectTextReplacesFirstLine` | configargparser/cap.py:133-135 | the text read for an object is its source with only the first line replaced by `[DEFAULT]` |
| `Cap.ReadObjStep` | configargparser/cap.py:131-136 | `_read_obj` keeps the state valid and the section pattern unchanged |
| `Cap.NoMissingHelp` | configargparser/cap.py:96 | after any reading, `_add_arguments` never fails on a missing help text |
| `Cap.ConfigArgumentParser.constructor` | configargparser/cap.py:22-32 | a fresh parser: configparser's own section pattern, empty section, defaults, help and arguments, no flags |
| `Cap.ConfigArgumentParser.ConvertDefaults` | configargparser/cap.py:40-51 | the new state and the error are those of `Convert` on the old state |
| `Cap.ConfigArgumentParser.ConvertKeys` | configargparser/cap.py:42-51 | the loop with its comment buffer leaves the defaults, help texts and failed key `ConvertFrom` describes |
| `Cap.ConfigArgumentParser.ReadString` | configargparser/cap.py:69-72 | the new state and the error are those of `ReadStringStep` |
| `Cap.ConfigArgumentParser.Read` | configargparser/cap.py:60-67 | the new state, the error and the names read are those of `ReadStep` |
| `Cap.ConfigArgumentParser.ReadPy` | configargparser/cap.py:74-79 | the new state and the error are those of `ReadPyStep` |
| `Cap.ConfigArgumentParser.ReadObj` | configargparser/cap.py:131-136 | the new state and the error are those of `ReadObjStep` |
| `Cap.ConfigArgumentParser.AddArguments` | configargparser/cap.py:81-101 | the parser's flags and the error are those of registration from its old flags |
| `Cap.ConfigArgumentParser.ParseArgsOnly` | configargparser/cap.py:108-115 | `args` becomes the parse result; a parse that exits leaves `args` as it was |
| `Cap.ConfigArgumentParser.ParseArgs` | configargparser/cap.py:117-129 | flags and arguments as `RegisterThenParse` gives them; the reading state is unchanged |
| `Cap.ConfigArgumentParser.ChangeObj` | configargparser/cap.py:138-140 | the object's attributes are updated with the arguments |
| `Cap.ConfigArgumentParser.ParseObj` | configargparser/cap.py:142-157 | read, register, parse, write back, with each failure stopping at its own step and leaving everything after it untouched |
| `Tap.Classify` | configargparser/tap.py:39-40 | a comment's text is strictly shorter than its line and has no whitespace at either end |
| `Tap.CommentShorter` | configargparser/tap.py:39-40 | a line whose stripped form starts with `#` loses at least one character to `lstrip(" #").strip()` |
| `Tap.ClassifyDropsMarks` | configargparser/tap.py:39-40 | a comment's text is the line after its leading spaces and `#`, stripped; an all-whitespace line is not a comment |
| `Tap.ClassifyAllAt` | configargparser/tap.py:38-39 | the `i`-th classified line is the `i`-th line, classified |
| `Tap.BodyAt` | configargparser/tap.py:38 | the walk sees line `i + 1` of the source as its `i`-th line |
| `Tap.Associate` | configargparser/tap.py:37-44 | the walk over the lines after the header raises `StopIteration` exactly when they hold more non-comment lines than there are keys |
| `Tap.AssociateExhaustedIff` | configargparser/tap.py:37-43 | `next(args_iter)` runs out exactly when there are more non-comment lines than keys left |
| `Tap.AssociateLeaves` | configargparser/tap.py:42-44 | the walk writes only the keys the iterator reaches |
| `Tap.AssociateBindsHere` | configargparser/tap.py:42-44 | a non-comment line with a key left hands the buffer, joined by `_join_msg` as written, to that key for good |
| `Tap.AssociateBinds` | configargparser/tap.py:38-44 | the `m`-th non-comment line gives the `m`-th key `_join_msg` as written of the comments right above it |
| `Tap.BareHashEmptyHelp` | configargparser/tap.py:38-51 | a class whose body is a line `#` and then a code line gives the first attribute the empty help text |
| `Tap.CodeLineAt` | configargparser/tap.py:42-43 | the `m`-th non-comment line exists and has `m` non-comment lines before it |
| `Tap.AssociateCovers` | configargparser/tap.py:37-44 | with as many non-comment lines as attributes, the walk gets through and every attribute gets a help text |
| `Tap.AssociatedNoMissingHelp` | configargparser/tap.py:68 | so `_add_arguments` then never fails on a missing help text |
| `Tap.NoTokensKeepObject` | tests/test_tap.py:41-44 | with no flags given, a fresh parser gives back the attributes, and writing them back changes nothing |
| `Tap.TypeArgumentParser.constructor` | configargparser/tap.py:17-22 | a fresh parser: empty defaults, help and arguments, no flags |
| `Tap.TypeArgumentParser.ReadObj` | configargparser/tap.py:29-44 | the defaults are the object's attributes; help and exhaustion are those of the comment walk over the lines after the header, starting from the old help |
| `Tap.TypeArgumentParser.AddArguments` | configargparser/tap.py:53-73 | the parser's flags and the error are those of registration from its old flags |
| `Tap.TypeArgumentParser.ParseArgsOnly` | configargparser/tap.py:75-82 | `args` becomes the parse result; a parse that exits leaves `args` as it was |
| `Tap.TypeArgumentParser.ChangeObj` | configargparser/tap.py:84-86 | the object's attributes are updated with the arguments |
| `Tap.TypeArgumentParser.ParseObj` | configargparser/tap.py:88-103 | read, register, parse, write back, with each failure stopping at its own step |
| `Gap.KeptKeys` | configargparser/gap.py:35-43 | the admitted names are exactly the globals not starting with `_` that are not modules, classes, functions or parsers, each once |
| `Gap.KeptEntries` | configargparser/gap.py:35-43 | exactly the admitted globals become defaults, with their own values |
| `Gap.KeptKeysInOrder` | configargparser/gap.py:37 | the defaults keep the order of the globals |
| `Gap.Kept` | configargparser/gap.py:35-43 | the kept globals form a valid dict |
| `Gap.NameHelp` | configargparser/gap.py:44 | the help dict has exactly the defaults' names as keys, maps each name to itself, and covers every default |
| `Gap.NameHelpCovers` | configargparser/gap.py:44 | every default is documented by its own name, so registration never fails on a missing help text |
| `Gap.NoTokensKeepGlobals` | tests/test_gap.py:32-35 | with no flags given, a fresh parser writes back exactly the values the globals already hold |
| `Gap.GlobalArgumentParser.constructor` | configargparser/gap.py:16-22 | a fresh parser with a dict of its own as `_globals` |
| `Gap.GlobalArgumentParser.ReadGlobals` | configargparser/gap.py:29-44 | `_globals` is the caller's dict itself, the defaults are its admitted entries and each help text is the name |
| `Gap.GlobalArgumentParser.AddArguments` | configargparser/gap.py:46-66 | the parser's flags and the error are those of registration from its old flags |
| `Gap.GlobalArgumentParser.ParseArgsOnly` | configargparser/gap.py:68-75 | `args` becomes the parse result; a parse that exits leaves `args` as it was |
| `Gap.GlobalArgumentParser.ChangeGlobals` | configargparser/gap.py:77-79 | the shared globals dict is updated with the arguments |
| `Gap.GlobalArgumentParser.ParseGlobals` | configargparser/gap.py:81-95 | read, register, parse, write back into the caller's globals, which a failure leaves untouched |

## Left out

- Reading files, `inspect.getsourcelines` and `inspect.stack` are inputs. The methods take the file texts, the class's source lines or the caller's globals dict as parameters.
- configparser's parsing of a text is an abstract function from a section pattern and a text to the DEFAULT section's keys and values, or an error. Its line syntax, continuation lines, interpolation, other sections and `optionxform` are not modelled.
- `Cap.ReadFiles`, `Cap.ReadStringStep`, `Cap.ReadObjStep`: a text configparser cannot parse merges nothing into the section. configparser keeps the lines it could parse and raises at the end; that partial merge is not modelled. `Cap.ReadFiles` keeps what earlier files merged.
- `ast.literal_eval` is an abstract function from a value text to a scalar or an error. A key without a value gives the error.
- Defaults are bool, int, float or str. Lists, dicts, tuples and `None` are not modelled, and neither is a type conversion with other types.
- Floats are exact reals, without binary rounding. Integer and float text conversion covers plain decimal notation only: underscores, exponents, `inf`/`nan` and non-ASCII digits are not modelled.
- argparse is modelled from the flags it is given and the occurrences after tokenisation. Left out are splitting the argument strings, `--opt=value` and joined short options, abbreviations of long options, prefix characters other than `-`, positional arguments, help formatting, and `sys.exit` with its message. Exits are `Usage` errors.
- `Cap.ConfigArgumentParser.ParseArgsOnly`: `self.namespace` is not kept; only `vars(namespace)` is, as `args`.
- `Cap.ConfigArgumentParser.ParseArgs`: the methods return the error they stop with; the dict `parse_args`, `parse_obj` and `parse_globals` return is the `args` field afterwards and is not returned a second time.
- Tap: the walk starts at the second source line, as the code does. The model takes whatever lines `inspect.getsourcelines` gives. When those include a decorator, as in `@dataclass` on Python 3.9 and later, the decorator is the skipped first line and the `class` line is walked as a non-comment line. That shifts every help text by one key and can raise `StopIteration`. Which lines `inspect` returns is not modelled.
- `Flags.ParseFrom`: an unrecognized option is reported by its option string alone. argparse lists every extra argument in its message, and the tokens after an unknown option are not kept as extras.
- Gap: a global is a plain value of one of the four kinds or one of the skipped kinds (module, class, function, parser instance); other objects, such as builtins or instances of other classes, are not modelled.
- `_init_parser` and `_init_config` are folded into the constructors.

## Findings

| source | as written | input that shows it | evidently intended | confidence | as-written member | corrected member |
|---|---|---|---|---|---|---|
| configargparser/cap.py:53-58 | `_join_msg` (and its copy at tap.py:46-51) falls back to `" "` only for an empty buffer | a bare `#` line as the only comment since the previous setting: the buffer is `[""]` and the next key's help text is `""` | a non-empty help text, so that argparse shows the default (the comments at cap.py:57 and tap.py:50 say so) | not executed | `Comments.JoinMsgAsWrittenCanBeEmpty`, `Cap.BareHashEmptyHelp`, `Tap.BareHashEmptyHelp` | `Comments.JoinMsgNeverEmpty` |

/**
 * Flag synthesis (`_add_arguments`, identical in the three parser classes),
 * the part of argparse it relies on (option-string conflicts, destination
 * names, store actions) and the parse result over the synthesized flags.
 */
module Flags {
  import opened Wrappers
  import opened Text
  import opened Scalars
  import opened OrderedMaps

  /** The argparse action of a flag: boolean defaults get the store action
      that yields the opposite value; every other default takes one value. */
  datatype Action = StoreTrue | StoreFalse | Store(default: Scalar)

  /** One `add_argument` call of `_add_arguments`: the default's name, its
      short letter if it has one, the action and the help text. */
  datatype FlagSpec = FlagSpec(name: string, short: Option<char>, action: Action, help: string)
  {
    /** The `*flags` passed to `add_argument`. */
    function OptionStrings(): (r: seq<string>)
      ensures r != [] && r[|r| - 1] == LongFlag(name)
    {
      match short
      case Some(c) => [ShortFlag(c), LongFlag(name)]
      case None => [LongFlag(name)]
    }

    /** The destination attribute argparse derives from the flags. */
    function Dest(): string
    {
      DeriveDest(OptionStrings())
    }
  }

  /** The value a flag's destination holds when the flag is not given. */
  function DefaultOf(a: Action): Scalar
  {
    match a
    case StoreTrue => Bool(false)
    case StoreFalse => Bool(true)
    case Store(d) => d
  }

  /** The value a boolean flag stores when it is given. */
  function Toggled(a: Action): Scalar
    requires !a.Store?
  {
    Bool(a.StoreTrue?)
  }

  /** `"--" + name.replace("_", "-")`. */
  function LongFlag(name: string): (r: string)
    ensures |r| == |name| + 2
  {
    "--" + ReplaceChar(name, '_', '-')
  }

  /** `"-" + letter`. */
  function ShortFlag(c: char): string
  {
    ['-', c]
  }

  /** The short letter of the `i`-th default: `shorts[i]` when `i < |shorts|`. */
  function ShortFor(i: nat, shorts: string): (r: Option<char>)
  {
    if i < |shorts| then Some(shorts[i]) else None
  }

  /** `boolean_to_action[value]` for a boolean, a plain store otherwise: the
      flag's default is the value itself, and a boolean flag given on the
      command line yields the negation of its default. */
  function ActionFor(value: Scalar): (a: Action)
    ensures DefaultOf(a) == value
    ensures value.Bool? <==> !a.Store?
    ensures value.Bool? ==> Toggled(a) == Bool(!value.b)
    ensures a.Store? ==> a.default.TypeOf() == value.TypeOf()
  {
    if value.Bool? then (if value.b then StoreFalse else StoreTrue) else Store(value)
  }

  /** An option string argparse treats as long (its second character is the
      prefix character `-`). */
  predicate IsLong(s: string)
  {
    |s| > 1 && s[1] == '-'
  }

  function FirstLong(opts: seq<string>): (r: Option<string>)
  {
    if opts == [] then None else if IsLong(opts[0]) then Some(opts[0]) else FirstLong(opts[1..])
  }

  /** argparse's destination name: the first long option string (or the
      first one when there is no long one) with its leading `-` removed and
      every other `-` replaced by `_`, so that no `-` is left. */
  function DeriveDest(opts: seq<string>): (r: string)
    requires opts != []
    ensures '-' !in r
    ensures |r| <= |match FirstLong(opts) case Some(s) => s case None => opts[0]|
  {
    var source := match FirstLong(opts) case Some(s) => s case None => opts[0];
    var stripped := LStripChars(source, {'-'});
    ReplaceCharPointwise(stripped, '-', '_');
    ReplaceChar(stripped, '-', '_')
  }

  /** The `add_argument` call `_add_arguments` makes for the `i`-th default. */
  function SpecFor(i: nat, name: string, value: Scalar, help: string, shorts: string): FlagSpec
  {
    FlagSpec(name, ShortFor(i, shorts), ActionFor(value), help)
  }

  ghost predicate HelpCoversFrom(defaults: OrderedMap<Scalar>, help: map<string, string>, i: nat)
  {
    forall j :: i <= j < |defaults.keys| ==> defaults.keys[j] in help
  }

  /** The flags of the defaults from position `i` on. */
  function SpecsFrom(defaults: OrderedMap<Scalar>, help: map<string, string>, shorts: string, i: nat): (r: seq<FlagSpec>)
    requires defaults.Valid() && i <= |defaults.keys| && HelpCoversFrom(defaults, help, i)
    ensures |r| == |defaults.keys| - i
    ensures forall j :: 0 <= j < |r| ==>
      var name := defaults.keys[i + j];
      r[j] == SpecFor(i + j, name, defaults.values[name], help[name], shorts)
    decreases |defaults.keys| - i
  {
    if i == |defaults.keys| then []
    else
      var name := defaults.keys[i];
      var rest := SpecsFrom(defaults, help, shorts, i + 1);
      var r := [SpecFor(i, name, defaults.values[name], help[name], shorts)] + rest;
      assert forall j :: 0 < j < |r| ==> r[j] == rest[j - 1];
      r
  }

  /** The flag list `_add_arguments` registers, one per default in order. */
  function Synthesize(defaults: OrderedMap<Scalar>, help: map<string, string>, shorts: string): (r: seq<FlagSpec>)
    requires defaults.Valid() && HelpCoversFrom(defaults, help, 0)
    ensures |r| == |defaults.keys|
    ensures forall j :: 0 <= j < |r| ==>
      var name := defaults.keys[j];
      r[j] == SpecFor(j, name, defaults.values[name], help[name], shorts)
  {
    SpecsFrom(defaults, help, shorts, 0)
  }

  // ---------------------------------------------------------------------------
  // Registration (argparse's `add_argument` and `_check_conflict`)

  datatype RegError =
    | MissingHelp(name: string)               // KeyError on `self.help[option]`
    | EmptyDest(name: string)                 // ValueError: dest= is required
    | Conflict(option: string)                // ArgumentError: conflicting option string

  /** The option strings of argparse's own `-h/--help` action. */
  const HelpOptions: set<string> := {"-h", "--help"}

  /** The option strings the actions claim. */
  function Claimed(actions: seq<FlagSpec>): set<string>
  {
    if actions == [] then {}
    else Claimed(actions[..|actions| - 1]) + Elements(actions[|actions| - 1].OptionStrings())
  }

  function Elements(s: seq<string>): (r: set<string>)
    ensures forall x :: x in r <==> x in s
  {
    if s == [] then {} else {s[0]} + Elements(s[1..])
  }

  /** An option string is claimed exactly when some action carries it. */
  lemma {:induction false} ClaimedIff(actions: seq<FlagSpec>, o: string)
    ensures o in Claimed(actions) <==> exists j :: 0 <= j < |actions| && o in actions[j].OptionStrings()
  {
    if actions != [] {
      var init := actions[..|actions| - 1];
      ClaimedIff(init, o);
      assert forall j :: 0 <= j < |init| ==> init[j] == actions[j];
    }
  }

  function Taken(actions: seq<FlagSpec>): set<string>
  {
    HelpOptions + Claimed(actions)
  }

  /** The first option string of `opts` that is already taken. */
  function FirstTaken(opts: seq<string>, taken: set<string>): (r: Option<string>)
    ensures r.None? <==> forall o :: o in opts ==> o !in taken
    ensures r.Some? ==> r.value in opts && r.value in taken
  {
    if opts == [] then None
    else if opts[0] in taken then Some(opts[0])
    else FirstTaken(opts[1..], taken)
  }

  /** The error `add_argument` raises for `spec`, if any: an empty
      destination, or a conflict naming a taken option string of the flag
      (see `AdmitIff`). */
  function Admit(actions: seq<FlagSpec>, spec: FlagSpec): (r: Option<RegError>)
    ensures r.None? ==> spec.Dest() != ""
    ensures r.Some? && r.value.Conflict? ==> r.value.option in spec.OptionStrings() && r.value.option in Taken(actions)
  {
    if spec.Dest() == "" then Some(EmptyDest(spec.name))
    else match FirstTaken(spec.OptionStrings(), Taken(actions))
      case Some(o) => Some(Conflict(o))
      case None => None
  }

  /** A flag is admitted exactly when its destination is not empty and none
      of its option strings is taken, by argparse's help flags or by a flag
      registered before. */
  lemma AdmitIff(actions: seq<FlagSpec>, spec: FlagSpec)
    ensures Admit(actions, spec).None? <==> spec.Dest() != "" && Elements(spec.OptionStrings()) !! Taken(actions)
  {
  }

  /** The registered actions and the error that stopped the loop, if any. */
  datatype Registration = Registration(actions: seq<FlagSpec>, error: Option<RegError>)

  /** `_add_arguments` from position `i` on, starting from `actions`: an error
      stops the loop and leaves the actions registered before it in place. */
  function RegisterFrom(actions: seq<FlagSpec>, defaults: OrderedMap<Scalar>, help: map<string, string>,
                        shorts: string, i: nat): Registration
    requires defaults.Valid() && i <= |defaults.keys|
    decreases |defaults.keys| - i
  {
    if i == |defaults.keys| then Registration(actions, None)
    else
      var name := defaults.keys[i];
      if name !in help then Registration(actions, Some(MissingHelp(name)))
      else
        var spec := SpecFor(i, name, defaults.values[name], help[name], shorts);
        match Admit(actions, spec)
        case Some(e) => Registration(actions, Some(e))
        case None =>
          RegisterFrom(actions + [spec], defaults, help, shorts, i + 1)
  }

  /** `shorts` cut to its first `n` letters. */
  function LeadingShorts(shorts: string, n: nat): (r: string)
    ensures |r| <= n && forall j :: 0 <= j < n ==> ShortFor(j, r) == ShortFor(j, shorts)
  {
    if |shorts| <= n then shorts else shorts[..n]
  }

  /** Registration reads a letter of `shorts` only for a default it reaches:
      two letter strings that agree on the defaults from `i` on register the
      same flags with the same outcome. */
  lemma {:induction false} ShortsReadUpTo(actions: seq<FlagSpec>, defaults: OrderedMap<Scalar>, help: map<string, string>,
                                          shorts: string, shorts': string, i: nat)
    requires defaults.Valid() && i <= |defaults.keys|
    requires forall j :: i <= j < |defaults.keys| ==> ShortFor(j, shorts) == ShortFor(j, shorts')
    ensures RegisterFrom(actions, defaults, help, shorts, i) == RegisterFrom(actions, defaults, help, shorts', i)
    decreases |defaults.keys| - i
  {
    if i < |defaults.keys| {
      var name := defaults.keys[i];
      if name in help {
        var spec := SpecFor(i, name, defaults.values[name], help[name], shorts);
        assert spec == SpecFor(i, name, defaults.values[name], help[name], shorts');
        RegisterStep(actions, defaults, help, shorts, i, spec);
        RegisterStep(actions, defaults, help, shorts', i, spec);
        if Admit(actions, spec).None? {
          ShortsReadUpTo(actions + [spec], defaults, help, shorts, shorts', i + 1);
        }
      }
    }
  }

  /** Letters of `shorts` beyond the number of defaults are ignored: the
      flags and the outcome are those of the leading letters alone. */
  lemma ExtraShortsIgnored(actions: seq<FlagSpec>, defaults: OrderedMap<Scalar>, help: map<string, string>, shorts: string)
    requires defaults.Valid()
    ensures var cut := LeadingShorts(shorts, |defaults.keys|);
      && RegisterFrom(actions, defaults, help, shorts, 0) == RegisterFrom(actions, defaults, help, cut, 0)
      && (HelpCoversFrom(defaults, help, 0) ==> Synthesize(defaults, help, shorts) == Synthesize(defaults, help, cut))
  {
    var cut := LeadingShorts(shorts, |defaults.keys|);
    ShortsReadUpTo(actions, defaults, help, shorts, cut, 0);
  }

  /** Registration only appends: the flags registered before stay first, at
      most one flag per default follows, and exactly one per default when
      nothing fails. */
  lemma RegisterKeepsEarlier(actions: seq<FlagSpec>, defaults: OrderedMap<Scalar>,
                             help: map<string, string>, shorts: string, i: nat)
    requires defaults.Valid() && i <= |defaults.keys|
    ensures var r := RegisterFrom(actions, defaults, help, shorts, i);
      && |actions| <= |r.actions| <= |actions| + |defaults.keys| - i && r.actions[..|actions|] == actions
      && (r.error.None? ==> |r.actions| == |actions| + |defaults.keys| - i)
  {
    RegisterKeepsPrefix(actions, defaults, help, shorts, i);
    RegisterCount(actions, defaults, help, shorts, i);
  }

  lemma {:induction false} RegisterKeepsPrefix(actions: seq<FlagSpec>, defaults: OrderedMap<Scalar>,
                                               help: map<string, string>, shorts: string, i: nat)
    requires defaults.Valid() && i <= |defaults.keys|
    ensures Extends(RegisterFrom(actions, defaults, help, shorts, i).actions, actions)
    decreases |defaults.keys| - i
  {
    if i < |defaults.keys| {
      var name := defaults.keys[i];
      if name in help {
        var spec := SpecFor(i, name, defaults.values[name], help[name], shorts);
        RegisterStep(actions, defaults, help, shorts, i, spec);
        if Admit(actions, spec).None? {
          var longer := actions + [spec];
          RegisterKeepsPrefix(longer, defaults, help, shorts, i + 1);
          PrefixOfExtension(actions, spec, RegisterFrom(longer, defaults, help, shorts, i + 1).actions);
        }
      }
    }
  }

  lemma {:induction false} RegisterCount(actions: seq<FlagSpec>, defaults: OrderedMap<Scalar>,
                                         help: map<string, string>, shorts: string, i: nat)
    requires defaults.Valid() && i <= |defaults.keys|
    ensures var r := RegisterFrom(actions, defaults, help, shorts, i);
      && |r.actions| <= |actions| + |defaults.keys| - i
      && (r.error.None? ==> |r.actions| == |actions| + |defaults.keys| - i)
    decreases |defaults.keys| - i
  {
    if i < |defaults.keys| {
      var name := defaults.keys[i];
      if name in help {
        var spec := SpecFor(i, name, defaults.values[name], help[name], shorts);
        RegisterStep(actions, defaults, help, shorts, i, spec);
        if Admit(actions, spec).None? {
          RegisterCount(actions + [spec], defaults, help, shorts, i + 1);
        }
      }
    }
  }

  /** `shorter` is a prefix of `longer`. */
  ghost predicate Extends(longer: seq<FlagSpec>, shorter: seq<FlagSpec>)
  {
    |shorter| <= |longer| && longer[..|shorter|] == shorter
  }

  lemma PrefixOfExtension(actions: seq<FlagSpec>, spec: FlagSpec, longer: seq<FlagSpec>)
    requires Extends(longer, actions + [spec])
    ensures Extends(longer, actions)
  {
    assert longer[..|actions|] == longer[..|actions| + 1][..|actions|];
  }

  /** No two actions share an option string. */
  ghost predicate OptionsDistinct(actions: seq<FlagSpec>)
  {
    forall i, j, o :: 0 <= i < j < |actions| && o in actions[i].OptionStrings() ==> o !in actions[j].OptionStrings()
  }

  /** What a sequence of successful `add_argument` calls leaves behind: every
      destination is non-empty, no flag is `-h` or `--help`, and no option
      string belongs to two actions. */
  ghost predicate WellRegistered(actions: seq<FlagSpec>)
  {
    && (forall i :: 0 <= i < |actions| ==> actions[i].Dest() != "")
    && (forall i, o :: 0 <= i < |actions| && o in actions[i].OptionStrings() ==> o !in HelpOptions)
    && OptionsDistinct(actions)
  }

  /** Registration succeeds exactly when every default has a help entry and
      the flags it adds keep the parser well registered; it then appends
      exactly the synthesized flags. */
  lemma {:induction false} RegisterFromOutcome(actions: seq<FlagSpec>, defaults: OrderedMap<Scalar>,
                                               help: map<string, string>, shorts: string, i: nat)
    requires defaults.Valid() && i <= |defaults.keys| && WellRegistered(actions)
    ensures RegisterFrom(actions, defaults, help, shorts, i).error.None? <==>
      HelpCoversFrom(defaults, help, i) && WellRegistered(actions + SpecsFrom(defaults, help, shorts, i))
    ensures RegisterFrom(actions, defaults, help, shorts, i).error.None? ==>
      HelpCoversFrom(defaults, help, i) &&
      RegisterFrom(actions, defaults, help, shorts, i).actions == actions + SpecsFrom(defaults, help, shorts, i)
    decreases |defaults.keys| - i
  {
    if i == |defaults.keys| {
      assert actions + [] == actions;
    } else {
      var name := defaults.keys[i];
      HelpCoversStep(defaults, help, i);
      if name in help {
        var spec := SpecFor(i, name, defaults.values[name], help[name], shorts);
        RegisterStep(actions, defaults, help, shorts, i, spec);
        if HelpCoversFrom(defaults, help, i) {
          SpecsFromStep(actions, defaults, help, shorts, i);
        }
        if Admit(actions, spec).Some? {
          if HelpCoversFrom(defaults, help, i) {
            AdmitRefusal(actions, spec, SpecsFrom(defaults, help, shorts, i + 1));
          }
        } else {
          AdmitAcceptance(actions, spec);
          RegisterFromOutcome(actions + [spec], defaults, help, shorts, i + 1);
        }
      }
    }
  }

  /** Default `i` and the ones after it are documented exactly when it is
      and the ones after it are. */
  lemma HelpCoversStep(defaults: OrderedMap<Scalar>, help: map<string, string>, i: nat)
    requires i < |defaults.keys|
    ensures HelpCoversFrom(defaults, help, i) <==> defaults.keys[i] in help && HelpCoversFrom(defaults, help, i + 1)
  {
  }

  /** The flags from default `i` on are its flag and then those after it. */
  lemma SpecsFromStep(actions: seq<FlagSpec>, defaults: OrderedMap<Scalar>, help: map<string, string>,
                      shorts: string, i: nat)
    requires defaults.Valid() && i < |defaults.keys| && HelpCoversFrom(defaults, help, i)
    ensures var name := defaults.keys[i];
      actions + SpecsFrom(defaults, help, shorts, i) ==
      actions + [SpecFor(i, name, defaults.values[name], help[name], shorts)] + SpecsFrom(defaults, help, shorts, i + 1)
  {
  }

  /** A refused flag leaves no well-registered extension. */
  lemma AdmitRefusal(actions: seq<FlagSpec>, spec: FlagSpec, rest: seq<FlagSpec>)
    requires Admit(actions, spec).Some?
    ensures !WellRegistered(actions + [spec] + rest)
  {
    var all := actions + [spec] + rest;
    var n := |actions|;
    assert all[n] == spec;
    if spec.Dest() != "" {
      var o := FirstTaken(spec.OptionStrings(), Taken(actions)).value;
      if o !in HelpOptions {
        ClaimedIff(actions, o);
        var j :| 0 <= j < |actions| && o in actions[j].OptionStrings();
        assert all[j] == actions[j];
      }
    }
  }

  /** An admitted flag keeps the parser well registered. */
  lemma AdmitAcceptance(actions: seq<FlagSpec>, spec: FlagSpec)
    requires WellRegistered(actions) && Admit(actions, spec).None?
    ensures WellRegistered(actions + [spec])
  {
    var all := actions + [spec];
    forall i, j, o | 0 <= i < j < |all| && o in all[i].OptionStrings()
      ensures o !in all[j].OptionStrings()
    {
      if j == |actions| {
        assert all[i] == actions[i];
        ClaimedIff(actions, o);
      } else {
        assert all[i] == actions[i] && all[j] == actions[j];
      }
    }
  }

  lemma LongFlagOffered(spec: FlagSpec)
    ensures LongFlag(spec.name) in spec.OptionStrings()
  {
  }

  /** Two flags whose names hyphenate alike share their long option string. */
  lemma SharedLongFlag(specs: seq<FlagSpec>, i: nat, j: nat)
    requires i < j < |specs| && LongFlag(specs[i].name) == LongFlag(specs[j].name)
    ensures !OptionsDistinct(specs)
  {
    LongFlagOffered(specs[i]);
    LongFlagOffered(specs[j]);
  }

  /** Two defaults whose names hyphenate to the same long flag, such as `a_b`
      and `a-b`, make registration on a fresh parser fail. */
  lemma HyphenCollisionRefused(defaults: OrderedMap<Scalar>, help: map<string, string>, shorts: string, i: nat, j: nat)
    requires defaults.Valid() && i < j < |defaults.keys|
    requires LongFlag(defaults.keys[i]) == LongFlag(defaults.keys[j])
    ensures RegisterFrom([], defaults, help, shorts, 0).error.Some?
  {
    RegisterFromOutcome([], defaults, help, shorts, 0);
    if HelpCoversFrom(defaults, help, 0) {
      var specs := SpecsFrom(defaults, help, shorts, 0);
      assert [] + specs == specs;
      assert specs[i].name == defaults.keys[i] && specs[j].name == defaults.keys[j];
      SharedLongFlag(specs, i, j);
    }
  }

  /** With a help text for every default, registration never fails on a
      missing one. */
  lemma {:induction false} CoveredNeverMissingHelp(actions: seq<FlagSpec>, defaults: OrderedMap<Scalar>,
                                                   help: map<string, string>, shorts: string, i: nat)
    requires defaults.Valid() && i <= |defaults.keys| && HelpCoversFrom(defaults, help, i)
    ensures !RegisterFrom(actions, defaults, help, shorts, i).error.Some? ||
            !RegisterFrom(actions, defaults, help, shorts, i).error.value.MissingHelp?
    decreases |defaults.keys| - i
  {
    if i < |defaults.keys| {
      var name := defaults.keys[i];
      var spec := SpecFor(i, name, defaults.values[name], help[name], shorts);
      if Admit(actions, spec).None? {
        CoveredNeverMissingHelp(actions + [spec], defaults, help, shorts, i + 1);
      }
    }
  }

  /** The parser is not reset between registrations: registering the same
      non-empty defaults a second time fails, since their first long flag is
      already taken. */
  lemma SecondRegistrationRefused(actions: seq<FlagSpec>, defaults: OrderedMap<Scalar>, help: map<string, string>,
                                  shorts: string)
    requires WellRegistered(actions) && defaults.Valid() && defaults.keys != []
    requires RegisterFrom(actions, defaults, help, shorts, 0).error.None?
    ensures RegisterFrom(RegisterFrom(actions, defaults, help, shorts, 0).actions, defaults, help, shorts, 0).error.Some?
  {
    RegisterFromOutcome(actions, defaults, help, shorts, 0);
    var specs := SpecsFrom(defaults, help, shorts, 0);
    var once := actions + specs;
    assert RegisterFrom(actions, defaults, help, shorts, 0).actions == once;
    RegisterFromOutcome(once, defaults, help, shorts, 0);
    var twice := once + specs;
    var n := |actions|;
    assert twice[n] == specs[0] && twice[n + |specs|] == specs[0];
    SharedLongFlag(twice, n, n + |specs|);
  }

  // ---------------------------------------------------------------------------
  // Parsing (argparse's `parse_args` over the registered flags)

  /** One flag on the command line, after argparse has split the tokens: the
      option string used and the argument attached to it or following it. */
  datatype Occurrence = Occurrence(option: string, argument: Option<string>)

  /** Why `parse_args` exits instead of returning. Errors about a flag name
      the flag by all of its option strings, whichever one was used. */
  datatype UsageError =
    | HelpRequested                                             // -h / --help prints help and exits
    | Unrecognized(option: string)                               // the first option string no flag carries
    | ExpectedOneArgument(flags: seq<string>)
    | IgnoredExplicitArgument(flags: seq<string>, argument: string)
    | InvalidValue(flags: seq<string>, kind: Kind, argument: string)

  /** The first registered flag that carries option string `o`. */
  function Lookup(actions: seq<FlagSpec>, o: string): (r: Option<FlagSpec>)
    ensures r.Some? ==> r.value in actions && o in r.value.OptionStrings()
    ensures r.None? ==> forall a :: a in actions ==> o !in a.OptionStrings()
  {
    if actions == [] then None
    else if o in actions[0].OptionStrings() then Some(actions[0])
    else Lookup(actions[1..], o)
  }

  /** The namespace before any flag is read: each destination, in the order
      of the flags, holds the default of the first flag that names it. */
  function DefaultsFrom(ns: OrderedMap<Scalar>, actions: seq<FlagSpec>): (r: OrderedMap<Scalar>)
    requires ns.Valid()
    ensures r.Valid()
    decreases |actions|
  {
    if actions == [] then ns
    else
      var a := actions[0];
      DefaultsFrom(if a.Dest() in ns.values then ns else ns.Put(a.Dest(), DefaultOf(a.action)), actions[1..])
  }

  function InitialNamespace(actions: seq<FlagSpec>): (r: OrderedMap<Scalar>)
    ensures r.Valid()
  {
    DefaultsFrom(Empty(), actions)
  }

  /** The effect of one occurrence of flag `a` on the namespace. */
  function Apply(ns: OrderedMap<Scalar>, a: FlagSpec, arg: Option<string>): (r: Result<OrderedMap<Scalar>, UsageError>)
  {
    match a.action
    case Store(d) =>
      (match arg
       case None => Err(ExpectedOneArgument(a.OptionStrings()))
       case Some(t) =>
         match Coerce(d.TypeOf(), t)
         case None => Err(InvalidValue(a.OptionStrings(), d.TypeOf(), t))
         case Some(v) => Ok(ns.Put(a.Dest(), v)))
    case _ =>
      (match arg
       case Some(t) => Err(IgnoredExplicitArgument(a.OptionStrings(), t))
       case None => Ok(ns.Put(a.Dest(), Toggled(a.action))))
  }

  /** Reads the occurrences left to right; the first error stops parsing. An
      option string no flag carries is set aside and parsing goes on: it is
      reported only when the occurrences after it raise nothing else. */
  function ParseFrom(ns: OrderedMap<Scalar>, actions: seq<FlagSpec>, occs: seq<Occurrence>): (r: Result<OrderedMap<Scalar>, UsageError>)
    decreases |occs|
  {
    if occs == [] then Ok(ns)
    else if occs[0].option in HelpOptions then Err(HelpRequested)
    else match Lookup(actions, occs[0].option)
      case None =>
        var later := ParseFrom(ns, actions, occs[1..]);
        if later.Err? && !later.error.Unrecognized? then later else Err(Unrecognized(occs[0].option))
      case Some(a) =>
        match Apply(ns, a, occs[0].argument)
        case Err(e) => Err(e)
        case Ok(ns') => ParseFrom(ns', actions, occs[1..])
  }

  /** A successful parse of a valid namespace gives a valid namespace. */
  lemma {:induction false} ParseFromValid(ns: OrderedMap<Scalar>, actions: seq<FlagSpec>, occs: seq<Occurrence>)
    requires ns.Valid()
    ensures ParseFrom(ns, actions, occs).Ok? ==> ParseFrom(ns, actions, occs).value.Valid()
    decreases |occs|
  {
    if occs != [] && occs[0].option !in HelpOptions && Lookup(actions, occs[0].option).Some? {
      var a := Lookup(actions, occs[0].option).value;
      var step := Apply(ns, a, occs[0].argument);
      if step.Ok? {
        ParseFromValid(step.value, actions, occs[1..]);
      }
    }
  }

  /** `vars(parser.parse_args(args))`: a namespace comes back only when
      every option string given belongs to a registered flag. */
  function Parse(actions: seq<FlagSpec>, occs: seq<Occurrence>): (r: Result<OrderedMap<Scalar>, UsageError>)
    ensures r.Ok? ==> r.value.Valid()
    ensures r.Ok? ==> forall k :: 0 <= k < |occs| ==> occs[k].option !in HelpOptions && Lookup(actions, occs[k].option).Some?
  {
    ParseFromValid(InitialNamespace(actions), actions, occs);
    ParseOkKnown(InitialNamespace(actions), actions, occs);
    ParseFrom(InitialNamespace(actions), actions, occs)
  }

  /** A parse gets through only when every option string given belongs to a
      registered flag and none of them asks for help. */
  lemma {:induction false} ParseOkKnown(ns: OrderedMap<Scalar>, actions: seq<FlagSpec>, occs: seq<Occurrence>)
    ensures ParseFrom(ns, actions, occs).Ok? ==>
      forall k :: 0 <= k < |occs| ==> occs[k].option !in HelpOptions && Lookup(actions, occs[k].option).Some?
    decreases |occs|
  {
    if occs != [] && occs[0].option !in HelpOptions && Lookup(actions, occs[0].option).Some? {
      var a := Lookup(actions, occs[0].option).value;
      var step := Apply(ns, a, occs[0].argument);
      if step.Ok? {
        ParseOkKnown(step.value, actions, occs[1..]);
        assert forall k :: 1 <= k < |occs| ==> occs[k] == occs[1..][k - 1];
      }
    }
  }

  /** An option string no flag carries does not stop the parse: an error
      raised by the occurrences after it wins (`--zzz -h` prints the help),
      and otherwise the option is reported as unrecognized. */
  lemma UnknownDeferred(ns: OrderedMap<Scalar>, actions: seq<FlagSpec>, o: string, arg: Option<string>,
                        rest: seq<Occurrence>)
    requires o !in HelpOptions && Lookup(actions, o).None?
    ensures var later := ParseFrom(ns, actions, rest);
      ParseFrom(ns, actions, [Occurrence(o, arg)] + rest) ==
      if later.Err? && !later.error.Unrecognized? then later else Err(Unrecognized(o))
  {
    assert ([Occurrence(o, arg)] + rest)[1..] == rest;
  }

  // ---------------------------------------------------------------------------
  // Destinations of synthesized flags

  /** A name whose destination comes back unchanged: not empty, not starting
      with `_` and free of `-`. Python identifiers not starting with `_` are
      plain. */
  predicate PlainName(name: string)
  {
    name != [] && name[0] != '_' && forall i :: 0 <= i < |name| ==> name[i] != '-'
  }

  /** Stripping the `--` of a long flag built from a plain name. */
  lemma LongFlagStripped(name: string)
    requires PlainName(name)
    ensures LStripChars(LongFlag(name), {'-'}) == ReplaceChar(name, '_', '-')
  {
    var body := ReplaceChar(name, '_', '-');
    ReplaceCharPointwise(name, '_', '-');
    assert body[0] != '-';
    var long := LongFlag(name);
    assert long[1..] == ['-'] + body;
    assert (['-'] + body)[1..] == body;
    assert LStripChars(body, {'-'}) == body;
    assert LStripChars(['-'] + body, {'-'}) == body;
  }

  /** The destination of a flag for a plain name, without the short letter
      `-`, is the name itself: `--a-float` stores into `a_float`. */
  lemma PlainDest(spec: FlagSpec)
    requires PlainName(spec.name) && spec.short != Some('-')
    ensures spec.Dest() == spec.name
  {
    var name := spec.name;
    var long := LongFlag(name);
    assert IsLong(long);
    assert FirstLong(spec.OptionStrings()) == Some(long) by {
      if spec.short.Some? {
        assert !IsLong(ShortFlag(spec.short.value));
        assert spec.OptionStrings()[1..] == [long];
      }
    }
    LongFlagStripped(name);
    var body := ReplaceChar(name, '_', '-');
    ReplaceCharPointwise(name, '_', '-');
    ReplaceCharPointwise(body, '-', '_');
    assert ReplaceChar(body, '-', '_') == name;
  }

  /** Every default has a plain name and no short letter in use is `-`
      (letters beyond the number of defaults are never read). */
  ghost predicate PlainDefaults(defaults: OrderedMap<Scalar>, shorts: string)
  {
    && (forall j :: 0 <= j < |defaults.keys| ==> PlainName(defaults.keys[j]))
    && (forall j :: 0 <= j < |shorts| && j < |defaults.keys| ==> shorts[j] != '-')
  }

  lemma {:induction false} DefaultsFromSpecs(ns: OrderedMap<Scalar>, defaults: OrderedMap<Scalar>,
                                             help: map<string, string>, shorts: string, i: nat)
    requires defaults.Valid() && i <= |defaults.keys| && HelpCoversFrom(defaults, help, i)
    requires PlainDefaults(defaults, shorts)
    requires ns.Valid() && ns.keys == defaults.keys[..i]
    requires forall k :: k in ns.values ==> k in defaults.values && ns.values[k] == defaults.values[k]
    ensures DefaultsFrom(ns, SpecsFrom(defaults, help, shorts, i)) == defaults
    decreases |defaults.keys| - i
  {
    var specs := SpecsFrom(defaults, help, shorts, i);
    if i == |defaults.keys| {
      assert ns.keys == defaults.keys;
      assert ns.values == defaults.values;
    } else {
      var name := defaults.keys[i];
      var ns' := ns.Put(name, defaults.values[name]);
      DefaultsFromStep(ns, defaults, help, shorts, i);
      NextPrefix(ns, defaults, i);
      DefaultsFromSpecs(ns', defaults, help, shorts, i + 1);
    }
  }

  /** The flag of default `i` puts that default, under its own name, into a
      namespace holding the defaults before it. */
  lemma DefaultsFromStep(ns: OrderedMap<Scalar>, defaults: OrderedMap<Scalar>,
                         help: map<string, string>, shorts: string, i: nat)
    requires defaults.Valid() && i < |defaults.keys| && HelpCoversFrom(defaults, help, i)
    requires PlainDefaults(defaults, shorts)
    requires ns.Valid() && ns.keys == defaults.keys[..i]
    ensures var name := defaults.keys[i];
      DefaultsFrom(ns, SpecsFrom(defaults, help, shorts, i)) ==
      DefaultsFrom(ns.Put(name, defaults.values[name]), SpecsFrom(defaults, help, shorts, i + 1))
  {
    var specs := SpecsFrom(defaults, help, shorts, i);
    var name := defaults.keys[i];
    PlainDest(specs[0]);
    assert name !in ns.values;
    assert specs[1..] == SpecsFrom(defaults, help, shorts, i + 1);
  }

  /** Putting default `i` into a namespace holding the defaults before it
      gives the namespace holding the defaults up to `i`. */
  lemma NextPrefix(ns: OrderedMap<Scalar>, defaults: OrderedMap<Scalar>, i: nat)
    requires defaults.Valid() && i < |defaults.keys|
    requires ns.Valid() && ns.keys == defaults.keys[..i]
    requires forall k :: k in ns.values ==> k in defaults.values && ns.values[k] == defaults.values[k]
    ensures var ns' := ns.Put(defaults.keys[i], defaults.values[defaults.keys[i]]);
      && ns'.Valid() && ns'.keys == defaults.keys[..i + 1]
      && forall k :: k in ns'.values ==> k in defaults.values && ns'.values[k] == defaults.values[k]
  {
    assert defaults.keys[i] !in ns.values;
    assert defaults.keys[..i + 1] == defaults.keys[..i] + [defaults.keys[i]];
  }

  /** With nothing on the command line the result is the defaults: same
      names, same order, same values. */
  lemma NothingGivenYieldsDefaults(defaults: OrderedMap<Scalar>, help: map<string, string>, shorts: string)
    requires defaults.Valid() && HelpCoversFrom(defaults, help, 0) && PlainDefaults(defaults, shorts)
    ensures InitialNamespace(Synthesize(defaults, help, shorts)) == defaults
    ensures Parse(Synthesize(defaults, help, shorts), []) == Ok(defaults)
  {
    DefaultsFromSpecs(Empty(), defaults, help, shorts, 0);
  }

  /** Plain names with the same long flag are the same name. */
  lemma LongFlagInjective(x: string, y: string)
    requires PlainName(x) && PlainName(y) && LongFlag(x) == LongFlag(y)
    ensures x == y
  {
    PlainDest(FlagSpec(x, None, StoreTrue, ""));
    PlainDest(FlagSpec(y, None, StoreTrue, ""));
  }

  lemma LongFlagOfHelp()
    ensures LongFlag("help") == "--help"
  {
    assert ReplaceChar("help", '_', '-') == "help";
  }

  /** Defaults whose flags argparse accepts all together: plain names other
      than `help`, and among the short letters in use none is `-` or `h` and
      none comes twice. */
  ghost predicate Registrable(defaults: OrderedMap<Scalar>, shorts: string)
  {
    && PlainDefaults(defaults, shorts)
    && (forall j :: 0 <= j < |defaults.keys| ==> defaults.keys[j] != "help")
    && (forall j :: 0 <= j < |shorts| && j < |defaults.keys| ==> shorts[j] != 'h')
    && (forall i, j :: 0 <= i < j < |shorts| && j < |defaults.keys| ==> shorts[i] != shorts[j])
  }

  /** The option strings of the `j`-th synthesized flag. */
  lemma SynthesizedOption(defaults: OrderedMap<Scalar>, help: map<string, string>, shorts: string, j: nat, o: string)
    requires defaults.Valid() && HelpCoversFrom(defaults, help, 0)
    requires j < |defaults.keys| && o in Synthesize(defaults, help, shorts)[j].OptionStrings()
    ensures Synthesize(defaults, help, shorts)[j].name == defaults.keys[j]
    ensures (j < |shorts| && o == ShortFlag(shorts[j])) || o == LongFlag(defaults.keys[j])
  {
  }

  lemma LongFlagNotHelp(name: string)
    requires PlainName(name) && name != "help"
    ensures LongFlag(name) !in HelpOptions
  {
    assert |LongFlag(name)| == |name| + 2;
    LongFlagOfHelp();
    if LongFlag(name) == "--help" {
      LongFlagInjective(name, "help");
    }
  }

  lemma SynthesizedAvoidHelp(defaults: OrderedMap<Scalar>, help: map<string, string>, shorts: string)
    requires defaults.Valid() && HelpCoversFrom(defaults, help, 0) && Registrable(defaults, shorts)
    ensures var specs := Synthesize(defaults, help, shorts);
      forall j, o :: 0 <= j < |specs| && o in specs[j].OptionStrings() ==> o !in HelpOptions
  {
    var specs := Synthesize(defaults, help, shorts);
    forall j, o | 0 <= j < |specs| && o in specs[j].OptionStrings()
      ensures o !in HelpOptions
    {
      assert specs[j].name == defaults.keys[j] && specs[j].short == ShortFor(j, shorts);
      SpecAvoidsHelp(specs[j], o);
    }
  }

  /** A flag with a plain name other than `help` and a short letter other
      than `h` does not clash with argparse's own help flags. */
  lemma SpecAvoidsHelp(spec: FlagSpec, o: string)
    requires PlainName(spec.name) && spec.name != "help" && spec.short != Some('h')
    requires o in spec.OptionStrings()
    ensures o !in HelpOptions
  {
    if o == LongFlag(spec.name) {
      LongFlagNotHelp(spec.name);
    }
  }

  lemma SynthesizedDistinct(defaults: OrderedMap<Scalar>, help: map<string, string>, shorts: string)
    requires defaults.Valid() && HelpCoversFrom(defaults, help, 0) && Registrable(defaults, shorts)
    ensures OptionsDistinct(Synthesize(defaults, help, shorts))
  {
    var specs := Synthesize(defaults, help, shorts);
    forall i, j, o | 0 <= i < j < |specs| && o in specs[i].OptionStrings()
      ensures o !in specs[j].OptionStrings()
    {
      SynthesizedOption(defaults, help, shorts, i, o);
      if o in specs[j].OptionStrings() {
        SynthesizedOption(defaults, help, shorts, j, o);
        if o == LongFlag(defaults.keys[i]) && o == LongFlag(defaults.keys[j]) {
          LongFlagInjective(defaults.keys[i], defaults.keys[j]);
        }
      }
    }
  }

  lemma SynthesizedDests(defaults: OrderedMap<Scalar>, help: map<string, string>, shorts: string)
    requires defaults.Valid() && HelpCoversFrom(defaults, help, 0) && PlainDefaults(defaults, shorts)
    ensures var specs := Synthesize(defaults, help, shorts);
      forall j :: 0 <= j < |specs| ==> specs[j].Dest() == defaults.keys[j]
  {
    var specs := Synthesize(defaults, help, shorts);
    forall j | 0 <= j < |specs|
      ensures specs[j].Dest() == defaults.keys[j]
    {
      PlainDest(specs[j]);
    }
  }

  lemma SynthesizedWellRegistered(defaults: OrderedMap<Scalar>, help: map<string, string>, shorts: string)
    requires defaults.Valid() && HelpCoversFrom(defaults, help, 0) && Registrable(defaults, shorts)
    ensures WellRegistered(Synthesize(defaults, help, shorts))
  {
    SynthesizedDests(defaults, help, shorts);
    SynthesizedAvoidHelp(defaults, help, shorts);
    SynthesizedDistinct(defaults, help, shorts);
  }

  /** On a fresh parser, registering defaults with plain names other than
      `help` and distinct short letters other than `-` and `h` fails exactly
      when a default has no help entry. */
  lemma RegistrationSucceeds(defaults: OrderedMap<Scalar>, help: map<string, string>, shorts: string)
    requires defaults.Valid() && Registrable(defaults, shorts)
    ensures RegisterFrom([], defaults, help, shorts, 0).error.None? <==> HelpCoversFrom(defaults, help, 0)
  {
    RegisterFromOutcome([], defaults, help, shorts, 0);
    if HelpCoversFrom(defaults, help, 0) {
      SynthesizedWellRegistered(defaults, help, shorts);
      assert [] + Synthesize(defaults, help, shorts) == Synthesize(defaults, help, shorts);
    }
  }

  // ---------------------------------------------------------------------------
  // What parsing yields

  /** In a well-registered parser each option string belongs to one flag. */
  lemma LookupFinds(actions: seq<FlagSpec>, j: nat, o: string)
    requires OptionsDistinct(actions) && j < |actions| && o in actions[j].OptionStrings()
    ensures Lookup(actions, o) == Some(actions[j])
  {
    var r := Lookup(actions, o);
    assert actions[j] in actions;
    var k :| 0 <= k < |actions| && actions[k] == r.value;
    assert k == j;
  }

  /** An occurrence of a registered flag acts as that flag, then parsing
      goes on with the rest. */
  lemma FlagStep(ns: OrderedMap<Scalar>, actions: seq<FlagSpec>, j: nat, o: string, arg: Option<string>,
                 rest: seq<Occurrence>)
    requires WellRegistered(actions) && j < |actions| && o in actions[j].OptionStrings()
    ensures var step := Apply(ns, actions[j], arg);
      ParseFrom(ns, actions, [Occurrence(o, arg)] + rest) ==
      if step.Err? then Err(step.error) else ParseFrom(step.value, actions, rest)
  {
    LookupFinds(actions, j, o);
    assert ([Occurrence(o, arg)] + rest)[1..] == rest;
  }

  /** One occurrence of a registered flag acts as that flag. */
  lemma SingleFlag(ns: OrderedMap<Scalar>, actions: seq<FlagSpec>, j: nat, o: string, arg: Option<string>)
    requires WellRegistered(actions) && j < |actions| && o in actions[j].OptionStrings()
    ensures ParseFrom(ns, actions, [Occurrence(o, arg)]) == Apply(ns, actions[j], arg)
  {
    FlagStep(ns, actions, j, o, arg, []);
    assert [Occurrence(o, arg)] + [] == [Occurrence(o, arg)];
  }

  /** Two option strings name the same registered flag. */
  predicate SameFlag(actions: seq<FlagSpec>, o: string, o': string)
  {
    && o !in HelpOptions && o' !in HelpOptions
    && Lookup(actions, o).Some? && Lookup(actions, o) == Lookup(actions, o')
  }

  /** The short and the long option string of a flag are aliases. */
  lemma ShortAliasesLong(actions: seq<FlagSpec>, j: nat)
    requires WellRegistered(actions) && j < |actions| && actions[j].short.Some?
    ensures SameFlag(actions, ShortFlag(actions[j].short.value), LongFlag(actions[j].name))
  {
    var spec := actions[j];
    assert ShortFlag(spec.short.value) in spec.OptionStrings();
    LongFlagOffered(spec);
    LookupFinds(actions, j, ShortFlag(spec.short.value));
    LookupFinds(actions, j, LongFlag(spec.name));
  }

  /** Parsing depends on which flag each occurrence names, not on the option
      string used for it: `-f 1` and `--a-float 1` give the same result,
      success or error. */
  lemma {:induction false} ParseRespectsAliases(ns: OrderedMap<Scalar>, actions: seq<FlagSpec>,
                                                occs: seq<Occurrence>, occs': seq<Occurrence>)
    requires |occs| == |occs'|
    requires forall k :: 0 <= k < |occs| ==>
      occs[k].argument == occs'[k].argument && SameFlag(actions, occs[k].option, occs'[k].option)
    ensures ParseFrom(ns, actions, occs) == ParseFrom(ns, actions, occs')
    decreases |occs|
  {
    if occs != [] {
      var a := Lookup(actions, occs[0].option).value;
      match Apply(ns, a, occs[0].argument)
      case Err(_) =>
      case Ok(m) =>
        ParseRespectsAliases(m, actions, occs[1..], occs'[1..]);
    }
  }

  /** Two flags given by their short letters parse as the same two flags
      given by their long names. */
  lemma ShortPairAsLong(ns: OrderedMap<Scalar>, actions: seq<FlagSpec>, j1: nat, arg1: Option<string>,
                        j2: nat, arg2: Option<string>)
    requires WellRegistered(actions) && j1 < |actions| && j2 < |actions|
    requires actions[j1].short.Some? && actions[j2].short.Some?
    ensures ParseFrom(ns, actions, [Occurrence(ShortFlag(actions[j1].short.value), arg1),
                                    Occurrence(ShortFlag(actions[j2].short.value), arg2)]) ==
            ParseFrom(ns, actions, [Occurrence(LongFlag(actions[j1].name), arg1),
                                    Occurrence(LongFlag(actions[j2].name), arg2)])
  {
    var short := [Occurrence(ShortFlag(actions[j1].short.value), arg1), Occurrence(ShortFlag(actions[j2].short.value), arg2)];
    var long := [Occurrence(LongFlag(actions[j1].name), arg1), Occurrence(LongFlag(actions[j2].name), arg2)];
    ShortAliasesLong(actions, j1);
    ShortAliasesLong(actions, j2);
    assert SameFlag(actions, short[0].option, long[0].option);
    assert SameFlag(actions, short[1].option, long[1].option);
    ParseRespectsAliases(ns, actions, short, long);
  }

  /** Giving the same flag with the same argument twice in a row is the same
      as giving it once. */
  lemma RepeatedFlagOnce(ns: OrderedMap<Scalar>, actions: seq<FlagSpec>, occ: Occurrence, rest: seq<Occurrence>)
    ensures ParseFrom(ns, actions, [occ, occ] + rest) == ParseFrom(ns, actions, [occ] + rest)
  {
    assert ([occ, occ] + rest)[1..] == [occ] + rest;
    assert ([occ] + rest)[1..] == rest;
    if occ.option !in HelpOptions && Lookup(actions, occ.option).Some? {
      var a := Lookup(actions, occ.option).value;
      match Apply(ns, a, occ.argument)
      case Err(_) =>
      case Ok(m) =>
        assert m.values[a.Dest() := m.values[a.Dest()]] == m.values;
        assert Apply(m, a, occ.argument) == Ok(m);
    }
  }

  /** Every flag's destination is present and holds a value of the type of
      the flag's default. */
  ghost predicate Conforms(ns: OrderedMap<Scalar>, actions: seq<FlagSpec>)
  {
    forall a :: a in actions ==> a.Dest() in ns.values && ns.values[a.Dest()].TypeOf() == DefaultOf(a.action).TypeOf()
  }

  /** The names, their order and their types every parse leaves alone. */
  ghost predicate SameShape(m: OrderedMap<Scalar>, ns: OrderedMap<Scalar>)
  {
    && m.keys == ns.keys && m.values.Keys == ns.values.Keys
    && forall k :: k in ns.values ==> m.values[k].TypeOf() == ns.values[k].TypeOf()
  }

  lemma {:induction false} ParseFromKeepsShape(ns: OrderedMap<Scalar>, actions: seq<FlagSpec>, occs: seq<Occurrence>)
    requires Conforms(ns, actions)
    ensures ParseFrom(ns, actions, occs).Ok? ==> SameShape(ParseFrom(ns, actions, occs).value, ns)
    decreases |occs|
  {
    if occs != [] && occs[0].option !in HelpOptions && Lookup(actions, occs[0].option).Some? {
      var a := Lookup(actions, occs[0].option).value;
      match Apply(ns, a, occs[0].argument)
      case Err(_) =>
      case Ok(m) =>
        assert SameShape(m, ns);
        assert Conforms(m, actions);
        ParseFromKeepsShape(m, actions, occs[1..]);
    }
  }

  /** The synthesized flags store into their own names, with the default's
      type. */
  lemma SynthesizedConform(defaults: OrderedMap<Scalar>, help: map<string, string>, shorts: string)
    requires defaults.Valid() && HelpCoversFrom(defaults, help, 0) && PlainDefaults(defaults, shorts)
    ensures Conforms(defaults, Synthesize(defaults, help, shorts))
  {
    var specs := Synthesize(defaults, help, shorts);
    forall a | a in specs
      ensures a.Dest() in defaults.values && defaults.values[a.Dest()].TypeOf() == DefaultOf(a.action).TypeOf()
    {
      var j :| 0 <= j < |specs| && specs[j] == a;
      PlainDest(a);
    }
  }

  /** Whatever is given, a successful parse returns the names of the defaults
      in their order, each holding a value of its default's type. */
  lemma ParseKeepsNamesAndTypes(defaults: OrderedMap<Scalar>, help: map<string, string>, shorts: string,
                                occs: seq<Occurrence>)
    requires defaults.Valid() && HelpCoversFrom(defaults, help, 0) && PlainDefaults(defaults, shorts)
    ensures Parse(Synthesize(defaults, help, shorts), occs).Ok? ==>
      SameShape(Parse(Synthesize(defaults, help, shorts), occs).value, defaults)
  {
    NothingGivenYieldsDefaults(defaults, help, shorts);
    SynthesizedConform(defaults, help, shorts);
    ParseFromKeepsShape(defaults, Synthesize(defaults, help, shorts), occs);
  }

  /** A boolean flag given alone yields the negation of its default; an
      argument attached to it is an error. */
  lemma BooleanFlagNegates(defaults: OrderedMap<Scalar>, help: map<string, string>, shorts: string,
                           j: nat, o: string, arg: Option<string>)
    requires defaults.Valid() && HelpCoversFrom(defaults, help, 0) && PlainDefaults(defaults, shorts)
    requires WellRegistered(Synthesize(defaults, help, shorts))
    requires j < |defaults.keys| && defaults.values[defaults.keys[j]].Bool?
    requires o in Synthesize(defaults, help, shorts)[j].OptionStrings()
    ensures var name := defaults.keys[j];
      Parse(Synthesize(defaults, help, shorts), [Occurrence(o, arg)]) ==
      if arg.None? then Ok(defaults.Put(name, Bool(!defaults.values[name].b)))
      else Err(IgnoredExplicitArgument(Synthesize(defaults, help, shorts)[j].OptionStrings(), arg.value))
  {
    var specs := Synthesize(defaults, help, shorts);
    var name := defaults.keys[j];
    NothingGivenYieldsDefaults(defaults, help, shorts);
    SingleFlag(defaults, specs, j, o, arg);
    assert specs[j] == SpecFor(j, name, defaults.values[name], help[name], shorts);
    PlainDest(specs[j]);
  }

  /** A typed flag given with a text stores the text converted to the type
      of its default (`--a-float 1` stores the float 1.0); a text that does
      not convert, or a missing argument, is an error. */
  lemma TypedFlagCoerces(defaults: OrderedMap<Scalar>, help: map<string, string>, shorts: string,
                         j: nat, o: string, arg: Option<string>)
    requires defaults.Valid() && HelpCoversFrom(defaults, help, 0) && PlainDefaults(defaults, shorts)
    requires WellRegistered(Synthesize(defaults, help, shorts))
    requires j < |defaults.keys| && !defaults.values[defaults.keys[j]].Bool?
    requires o in Synthesize(defaults, help, shorts)[j].OptionStrings()
    ensures var name := defaults.keys[j];
      var kind := defaults.values[name].TypeOf();
      var flags := Synthesize(defaults, help, shorts)[j].OptionStrings();
      Parse(Synthesize(defaults, help, shorts), [Occurrence(o, arg)]) ==
      if arg.None? then Err(ExpectedOneArgument(flags))
      else if Coerce(kind, arg.value).None? then Err(InvalidValue(flags, kind, arg.value))
      else Ok(defaults.Put(name, Coerce(kind, arg.value).value))
  {
    var specs := Synthesize(defaults, help, shorts);
    var name := defaults.keys[j];
    NothingGivenYieldsDefaults(defaults, help, shorts);
    SingleFlag(defaults, specs, j, o, arg);
    assert specs[j] == SpecFor(j, name, defaults.values[name], help[name], shorts);
    PlainDest(specs[j]);
  }

  /** Two occurrences of registered flags, the first of which succeeds. */
  lemma TwoFlags(ns: OrderedMap<Scalar>, actions: seq<FlagSpec>, j1: nat, o1: string, arg1: Option<string>,
                 j2: nat, o2: string, arg2: Option<string>)
    requires WellRegistered(actions) && j1 < |actions| && o1 in actions[j1].OptionStrings()
    requires j2 < |actions| && o2 in actions[j2].OptionStrings()
    requires Apply(ns, actions[j1], arg1).Ok?
    ensures ParseFrom(ns, actions, [Occurrence(o1, arg1), Occurrence(o2, arg2)]) ==
      Apply(Apply(ns, actions[j1], arg1).value, actions[j2], arg2)
  {
    FlagStep(ns, actions, j1, o1, arg1, [Occurrence(o2, arg2)]);
    assert [Occurrence(o1, arg1)] + [Occurrence(o2, arg2)] == [Occurrence(o1, arg1), Occurrence(o2, arg2)];
    SingleFlag(Apply(ns, actions[j1], arg1).value, actions, j2, o2, arg2);
  }

  /** The `j`-th synthesized flag stores into the `j`-th name, with the
      action its default calls for. */
  lemma SynthesizedFlag(defaults: OrderedMap<Scalar>, help: map<string, string>, shorts: string, j: nat)
    requires defaults.Valid() && HelpCoversFrom(defaults, help, 0) && PlainDefaults(defaults, shorts)
    requires j < |defaults.keys|
    ensures Synthesize(defaults, help, shorts)[j].Dest() == defaults.keys[j]
    ensures Synthesize(defaults, help, shorts)[j].action == ActionFor(defaults.values[defaults.keys[j]])
  {
    var specs := Synthesize(defaults, help, shorts);
    var name := defaults.keys[j];
    assert specs[j] == SpecFor(j, name, defaults.values[name], help[name], shorts);
    PlainDest(specs[j]);
  }

  /** The `j`-th synthesized flag is named after the `j`-th default and,
      when there is a `j`-th short letter, answers to it. */
  lemma SynthesizedShort(defaults: OrderedMap<Scalar>, help: map<string, string>, shorts: string, j: nat)
    requires defaults.Valid() && HelpCoversFrom(defaults, help, 0) && j < |defaults.keys| && j < |shorts|
    ensures Synthesize(defaults, help, shorts)[j].name == defaults.keys[j]
    ensures Synthesize(defaults, help, shorts)[j].short == Some(shorts[j])
    ensures ShortFlag(shorts[j]) in Synthesize(defaults, help, shorts)[j].OptionStrings()
  {
    var specs := Synthesize(defaults, help, shorts);
    var name := defaults.keys[j];
    assert specs[j] == SpecFor(j, name, defaults.values[name], help[name], shorts);
  }

  /** A boolean flag followed by a typed flag with a text that converts:
      the boolean is toggled and the converted text stored. */
  lemma ToggleThenStore(ns: OrderedMap<Scalar>, actions: seq<FlagSpec>, jb: nat, ob: string,
                        jt: nat, ot: string, text: string)
    requires WellRegistered(actions) && jb < |actions| && ob in actions[jb].OptionStrings() && !actions[jb].action.Store?
    requires jt < |actions| && ot in actions[jt].OptionStrings() && actions[jt].action.Store?
    requires Coerce(actions[jt].action.default.TypeOf(), text).Some?
    ensures ParseFrom(ns, actions, [Occurrence(ob, None), Occurrence(ot, Some(text))]) ==
      Ok(ns.Put(actions[jb].Dest(), Toggled(actions[jb].action))
           .Put(actions[jt].Dest(), Coerce(actions[jt].action.default.TypeOf(), text).value))
  {
    TwoFlags(ns, actions, jb, ob, None, jt, ot, Some(text));
  }

  /** `-b -f 1` on the synthesized flags: the boolean is negated and the
      converted text stored, the other defaults stay. */
  lemma BooleanThenTyped(defaults: OrderedMap<Scalar>, help: map<string, string>, shorts: string,
                         jb: nat, ob: string, jt: nat, ot: string, text: string)
    requires defaults.Valid() && HelpCoversFrom(defaults, help, 0) && PlainDefaults(defaults, shorts)
    requires WellRegistered(Synthesize(defaults, help, shorts))
    requires jb < |defaults.keys| && defaults.values[defaults.keys[jb]].Bool?
    requires ob in Synthesize(defaults, help, shorts)[jb].OptionStrings()
    requires jt < |defaults.keys| && !defaults.values[defaults.keys[jt]].Bool?
    requires ot in Synthesize(defaults, help, shorts)[jt].OptionStrings()
    requires Coerce(defaults.values[defaults.keys[jt]].TypeOf(), text).Some?
    ensures var nb := defaults.keys[jb];
      var nt := defaults.keys[jt];
      Parse(Synthesize(defaults, help, shorts), [Occurrence(ob, None), Occurrence(ot, Some(text))]) ==
      Ok(defaults.Put(nb, Bool(!defaults.values[nb].b))
                 .Put(nt, Coerce(defaults.values[nt].TypeOf(), text).value))
  {
    var specs := Synthesize(defaults, help, shorts);
    NothingGivenYieldsDefaults(defaults, help, shorts);
    SynthesizedFlag(defaults, help, shorts, jb);
    SynthesizedFlag(defaults, help, shorts, jt);
    ToggleThenStore(defaults, specs, jb, ob, jt, ot, text);
  }

  // ---------------------------------------------------------------------------
  // The parser object and the registration loop

  /** An `argparse.ArgumentParser`: the flags registered after its own
      `-h/--help`. */
  class ArgumentParser {
    var actions: seq<FlagSpec>

    ghost predicate Valid()
      reads this
    {
      WellRegistered(actions)
    }

    /** A fresh parser knows only `-h/--help`. */
    constructor ()
      ensures actions == [] && Valid()
    {
      actions := [];
    }

    /** `add_argument`: a refused flag leaves the parser as it was. */
    method AddArgument(spec: FlagSpec) returns (err: Option<RegError>)
      requires Valid()
      modifies this
      ensures err == Admit(old(actions), spec)
      ensures actions == if err.None? then old(actions) + [spec] else old(actions)
      ensures Valid()
    {
      err := Admit(actions, spec);
      if err.None? {
        AdmitAcceptance(actions, spec);
        actions := actions + [spec];
      }
    }

    /** `vars(parse_args(args))`. */
    function ParseArgs(occs: seq<Occurrence>): Result<OrderedMap<Scalar>, UsageError>
      reads this
    {
      Parse(actions, occs)
    }
  }

  /** `_add_arguments(shorts)`: one `add_argument` per default, in order; the
      first error stops the loop and leaves the flags added before it. */
  method AddArguments(p: ArgumentParser, defaults: OrderedMap<Scalar>, help: map<string, string>, shorts: string)
    returns (err: Option<RegError>)
    requires p.Valid() && defaults.Valid()
    modifies p
    ensures p.Valid()
    ensures Registration(p.actions, err) == RegisterFrom(old(p.actions), defaults, help, shorts, 0)
  {
    var i := 0;
    while i < |defaults.keys|
      invariant i <= |defaults.keys| && p.Valid()
      invariant RegisterFrom(p.actions, defaults, help, shorts, i) == RegisterFrom(old(p.actions), defaults, help, shorts, 0)
      decreases |defaults.keys| - i
    {
      var option := defaults.keys[i];
      if option !in help {
        return Some(MissingHelp(option));
      }
      var short := if i < |shorts| then Some(shorts[i]) else None;
      var spec := FlagSpec(option, short, ActionFor(defaults.values[option]), help[option]);
      assert spec == SpecFor(i, option, defaults.values[option], help[option], shorts);
      ghost var before := p.actions;
      err := p.AddArgument(spec);
      RegisterStep(before, defaults, help, shorts, i, spec);
      if err.Some? {
        return;
      }
      i := i + 1;
    }
    err := None;
  }

  /** One step of the registration loop: the flag for default `i` is
      either refused, which ends the loop, or added. */
  lemma RegisterStep(actions: seq<FlagSpec>, defaults: OrderedMap<Scalar>, help: map<string, string>,
                     shorts: string, i: nat, spec: FlagSpec)
    requires defaults.Valid() && i < |defaults.keys| && defaults.keys[i] in help
    requires spec == SpecFor(i, defaults.keys[i], defaults.values[defaults.keys[i]], help[defaults.keys[i]], shorts)
    ensures Admit(actions, spec).Some? ==>
      RegisterFrom(actions, defaults, help, shorts, i) == Registration(actions, Admit(actions, spec))
    ensures Admit(actions, spec).None? ==>
      RegisterFrom(actions, defaults, help, shorts, i) == RegisterFrom(actions + [spec], defaults, help, shorts, i + 1)
  {
  }

  /** After a successful `_add_arguments` on a parser, the parser holds its
      old flags followed by exactly the synthesized ones. */
  lemma RegisteredFlags(actions: seq<FlagSpec>, defaults: OrderedMap<Scalar>, help: map<string, string>, shorts: string)
    requires WellRegistered(actions) && defaults.Valid()
    requires RegisterFrom(actions, defaults, help, shorts, 0).error.None?
    ensures HelpCoversFrom(defaults, help, 0)
    ensures RegisterFrom(actions, defaults, help, shorts, 0).actions == actions + Synthesize(defaults, help, shorts)
    ensures WellRegistered(actions + Synthesize(defaults, help, shorts))
  {
    RegisterFromOutcome(actions, defaults, help, shorts, 0);
  }
}

/**
 * What the three parser classes share after they have their defaults and
 * help texts: `_add_arguments` on the parser, then `_parse_args`, and the
 * exceptions any of their calls can let through.
 */
module Pipeline {
  import opened Wrappers
  import opened Scalars
  import opened OrderedMaps
  import opened Flags

  datatype Failure =
    | MalformedConfig            // configparser raises while reading a text
    | Unconvertible(key: string) // `ast.literal_eval` raises on the value of `key`
    | NoSourceLines              // `source_lines[0] = ...` on an empty list
    | KeysExhausted              // `next(args_iter)` raises StopIteration
    | Refused(reason: RegError)  // `add_argument` raises
    | Usage(error: UsageError)   // `parse_args` exits

  /** The flags on the parser afterwards and the parsed arguments, or why
      there are none. */
  datatype Run = Run(actions: seq<FlagSpec>, outcome: Result<OrderedMap<Scalar>, Failure>)

  /** `_add_arguments(shorts)` followed, when it returns, by
      `_parse_args(args)`. */
  function RegisterThenParse(actions: seq<FlagSpec>, defaults: OrderedMap<Scalar>, help: map<string, string>,
                             shorts: string, occs: seq<Occurrence>): (r: Run)
    requires defaults.Valid()
    ensures r.actions == RegisterFrom(actions, defaults, help, shorts, 0).actions
    ensures r.outcome.Err? && r.outcome.error.Refused? <==> RegisterFrom(actions, defaults, help, shorts, 0).error.Some?
  {
    var reg := RegisterFrom(actions, defaults, help, shorts, 0);
    if reg.error.Some? then Run(reg.actions, Err(Refused(reg.error.value)))
    else
      var parsed := Parse(reg.actions, occs);
      if parsed.Err? then Run(reg.actions, Err(Usage(parsed.error)))
      else Run(reg.actions, Ok(parsed.value))
  }

  /** On a fresh parser, defaults with plain names other than `help`, help
      for each of them and distinct short letters other than `-` and `h`:
      registration succeeds and no flags give back the defaults. */
  lemma FreshParserNoFlags(defaults: OrderedMap<Scalar>, help: map<string, string>, shorts: string)
    requires defaults.Valid() && Registrable(defaults, shorts) && HelpCoversFrom(defaults, help, 0)
    ensures RegisterThenParse([], defaults, help, shorts, []) == Run(Synthesize(defaults, help, shorts), Ok(defaults))
  {
    RegistrationSucceeds(defaults, help, shorts);
    RegisteredFlags([], defaults, help, shorts);
    assert [] + Synthesize(defaults, help, shorts) == Synthesize(defaults, help, shorts);
    NothingGivenYieldsDefaults(defaults, help, shorts);
  }

  /** Calling the pipeline a second time on the same parser, as a second
      `parse_args` does, is refused when the first registration succeeded. */
  lemma SecondRunRefused(actions: seq<FlagSpec>, defaults: OrderedMap<Scalar>, help: map<string, string>,
                         shorts: string, occs: seq<Occurrence>, occs': seq<Occurrence>)
    requires WellRegistered(actions) && defaults.Valid() && defaults.keys != []
    requires !RegisterThenParse(actions, defaults, help, shorts, occs).outcome.Err? ||
             !RegisterThenParse(actions, defaults, help, shorts, occs).outcome.error.Refused?
    ensures var again := RegisterThenParse(RegisterThenParse(actions, defaults, help, shorts, occs).actions,
                                           defaults, help, shorts, occs');
      again.outcome.Err? && again.outcome.error.Refused?
  {
    SecondRegistrationRefused(actions, defaults, help, shorts);
  }

  /** A successful run gives a valid namespace. */
  lemma RunValid(actions: seq<FlagSpec>, defaults: OrderedMap<Scalar>, help: map<string, string>,
                 shorts: string, occs: seq<Occurrence>)
    requires defaults.Valid()
    ensures var r := RegisterThenParse(actions, defaults, help, shorts, occs);
      r.outcome.Ok? ==> r.outcome.value.Valid()
  {
    var reg := RegisterFrom(actions, defaults, help, shorts, 0);
    ParseFromValid(InitialNamespace(reg.actions), reg.actions, occs);
  }
}

/**
 * `GlobalArgumentParser`: defaults taken from the plain variables of the
 * calling module's globals, each documented by its own name; the parsed
 * arguments are written back into those same globals.
 */
module Gap {
  import opened Wrappers
  import opened Text
  import opened Scalars
  import opened OrderedMaps
  import opened Flags
  import opened PyObjects
  import opened Pipeline

  // ---------------------------------------------------------------------------
  // The comprehensions of `_read_globals`

  /** A global becomes a default unless its name starts with `_` or it is a
      module, a class, a function or a parser of this kind. */
  predicate Admitted(name: string, value: Value)
  {
    !StartsWith(name, "_") && value.Data?
  }

  /** The admitted names among `keys`, in order. */
  function KeptKeys(keys: seq<string>, values: map<string, Value>): (r: seq<string>)
    requires forall k :: k in keys ==> k in values
    ensures forall k :: k in r <==> k in keys && Admitted(k, values[k])
    ensures Distinct(keys) ==> Distinct(r)
    decreases |keys|
  {
    if keys == [] then []
    else
      var rest := KeptKeys(keys[1..], values);
      assert forall k :: k in keys <==> k == keys[0] || k in keys[1..];
      if Admitted(keys[0], values[keys[0]]) then
        assert Distinct(keys) ==> keys[0] !in keys[1..] by {
          if Distinct(keys) {
            DistinctTail(keys);
          }
        }
        assert Distinct(keys) ==> Distinct(keys[1..]) by {
          if Distinct(keys) {
            DistinctTail(keys);
          }
        }
        [keys[0]] + rest
      else
        assert Distinct(keys) ==> Distinct(keys[1..]) by {
          if Distinct(keys) {
            DistinctTail(keys);
          }
        }
        rest
  }

  /** The comprehension `{k: v for k, v in _globals.items() if ...}`. */
  function Kept(g: OrderedMap<Value>): (r: OrderedMap<Scalar>)
    requires g.Valid()
    ensures r.Valid()
  {
    var keys := KeptKeys(g.keys, g.values);
    OrderedMap(keys, map k | k in keys :: g.values[k].scalar)
  }

  /** Exactly the admitted globals become defaults, with their values. */
  lemma KeptEntries(g: OrderedMap<Value>, k: string)
    requires g.Valid()
    ensures k in Kept(g).values <==> k in g.values && Admitted(k, g.values[k])
    ensures k in Kept(g).values ==> g.values[k] == Data(Kept(g).values[k])
  {
  }

  /** `x` comes before `y` in `s`. */
  ghost predicate Before(s: seq<string>, x: string, y: string)
  {
    exists p: nat, q: nat :: p < q < |s| && s[p] == x && s[q] == y
  }

  /** The defaults keep the order of the globals: of two kept names, the
      earlier one comes first among the globals too. */
  lemma {:induction false} KeptKeysInOrder(keys: seq<string>, values: map<string, Value>, a: nat, b: nat)
    requires forall k :: k in keys ==> k in values
    requires a < b < |KeptKeys(keys, values)|
    ensures Before(keys, KeptKeys(keys, values)[a], KeptKeys(keys, values)[b])
    decreases |keys|
  {
    var r := KeptKeys(keys, values);
    var rest := KeptKeys(keys[1..], values);
    if Admitted(keys[0], values[keys[0]]) {
      assert r == [keys[0]] + rest;
      if a == 0 {
        assert r[b] == rest[b - 1] && rest[b - 1] in keys[1..];
        var q: nat :| q < |keys| - 1 && keys[1..][q] == r[b];
        assert keys[0] == r[a] && keys[q + 1] == r[b];
      } else {
        KeptKeysInOrder(keys[1..], values, a - 1, b - 1);
        var p: nat, q: nat :| p < q < |keys| - 1 && keys[1..][p] == rest[a - 1] && keys[1..][q] == rest[b - 1];
        assert keys[p + 1] == r[a] && keys[q + 1] == r[b];
      }
    } else {
      assert r == rest;
      KeptKeysInOrder(keys[1..], values, a, b);
      var p: nat, q: nat :| p < q < |keys| - 1 && keys[1..][p] == r[a] && keys[1..][q] == r[b];
      assert keys[p + 1] == r[a] && keys[q + 1] == r[b];
    }
  }

  /** `{k: str(k) for k in defaults}`: a help text for the defaults and
      nothing else, each default's being its own name, so that every default
      in order has one. */
  function NameHelp(defaults: OrderedMap<Scalar>): (r: map<string, string>)
    ensures r.Keys == defaults.values.Keys
    ensures forall k :: k in r ==> r[k] == k
    ensures defaults.Valid() ==> HelpCoversFrom(defaults, r, 0)
  {
    map k | k in defaults.values :: k
  }

  /** Every default is documented by its own name, so `_add_arguments`
      never fails on a missing help text. */
  lemma NameHelpCovers(defaults: OrderedMap<Scalar>, actions: seq<FlagSpec>, shorts: string)
    requires defaults.Valid()
    ensures forall k :: k in defaults.values ==> k in NameHelp(defaults) && NameHelp(defaults)[k] == k
    ensures var reg := RegisterFrom(actions, defaults, NameHelp(defaults), shorts, 0);
      !reg.error.Some? || !reg.error.value.MissingHelp?
  {
    assert HelpCoversFrom(defaults, NameHelp(defaults), 0);
    CoveredNeverMissingHelp(actions, defaults, NameHelp(defaults), shorts, 0);
  }

  /** With no flags given, a fresh parser writes back into the globals
      exactly the values they already hold. */
  lemma NoTokensKeepGlobals(g: OrderedMap<Value>, shorts: string)
    requires g.Valid() && Registrable(Kept(g), shorts)
    ensures var run := RegisterThenParse([], Kept(g), NameHelp(Kept(g)), shorts, []);
      && run.outcome == Ok(Kept(g))
      && g.UpdateWith(AsGlobals(Kept(g))) == g
  {
    var d := Kept(g);
    assert HelpCoversFrom(d, NameHelp(d), 0);
    FreshParserNoFlags(d, NameHelp(d), shorts);
    UpdateWithHeld(g, AsGlobals(d));
  }

  // ---------------------------------------------------------------------------
  // The parser object

  class GlobalArgumentParser {
    var defaults: OrderedMap<Scalar>
    var help: map<string, string>
    var args: OrderedMap<Scalar>
    var scope: Globals    // `_globals`, shared with the module it was read from
    var parser: ArgumentParser

    ghost predicate Valid()
      reads this, parser, scope
    {
      defaults.Valid() && args.Valid() && parser.Valid() && scope.Valid()
    }

    /** `_globals` starts as a dict of its own. */
    constructor ()
      ensures Valid() && fresh(parser) && fresh(scope) && parser.actions == [] && scope.vars == Empty()
      ensures defaults == Empty() && help == map[] && args == Empty()
    {
      defaults := Empty();
      help := map[];
      args := Empty();
      scope := new Globals(Empty());
      parser := new ArgumentParser();
    }

    /** `_read_globals()`, given the globals dict of the calling frame: the
        dict itself is kept, not a copy. */
    method ReadGlobals(g: Globals)
      requires Valid() && g.Valid()
      modifies this
      ensures Valid() && scope == g && parser == old(parser) && args == old(args)
      ensures defaults == Kept(g.vars) && help == NameHelp(defaults)
    {
      scope := g;
      defaults := Kept(g.vars);
      help := NameHelp(defaults);
    }

    /** `_add_arguments(shorts)`. */
    method AddArguments(shorts: string) returns (err: Option<Failure>)
      requires Valid()
      modifies parser
      ensures Valid()
      ensures var reg := RegisterFrom(old(parser.actions), defaults, help, shorts, 0);
        && parser.actions == reg.actions
        && err == if reg.error.Some? then Some(Refused(reg.error.value)) else None
    {
      var e := Flags.AddArguments(parser, defaults, help, shorts);
      err := if e.Some? then Some(Refused(e.value)) else None;
    }

    /** `_parse_args(args)`: a parse that exits leaves `args` as it was. */
    method ParseArgsOnly(occs: seq<Occurrence>) returns (err: Option<Failure>)
      requires Valid()
      modifies this
      ensures Valid() && defaults == old(defaults) && help == old(help) && parser == old(parser) && scope == old(scope)
      ensures var parsed := Parse(parser.actions, occs);
        if parsed.Ok? then args == parsed.value && err.None?
        else args == old(args) && err == Some(Usage(parsed.error))
    {
      var parsed := parser.ParseArgs(occs);
      if parsed.Err? {
        return Some(Usage(parsed.error));
      }
      ParseFromValid(InitialNamespace(parser.actions), parser.actions, occs);
      args := parsed.value;
      err := None;
    }

    /** `_change_globals()`: the arguments go into the shared globals dict. */
    method ChangeGlobals()
      requires Valid()
      modifies scope
      ensures Valid() && scope.vars == old(scope.vars).UpdateWith(AsGlobals(args))
    {
      scope.Update(args);
    }

    /** `parse_globals(args, shorts=shorts)`, given the globals dict of the
        calling frame. */
    method ParseGlobals(g: Globals, occs: seq<Occurrence>, shorts: string) returns (err: Option<Failure>)
      requires Valid() && g.Valid()
      modifies this, parser, g
      ensures Valid() && scope == g && parser == old(parser)
      ensures defaults == Kept(old(g.vars)) && help == NameHelp(defaults)
      ensures var run := RegisterThenParse(old(parser.actions), defaults, help, shorts, occs);
        && parser.actions == run.actions
        && if run.outcome.Ok? then
             err.None? && args == run.outcome.value && g.vars == old(g.vars).UpdateWith(AsGlobals(args))
           else
             err == Some(run.outcome.error) && args == old(args) && g.vars == old(g.vars)
    {
      ReadGlobals(g);
      err := AddArguments(shorts);
      if err.Some? {
        return;
      }
      err := ParseArgsOnly(occs);
      if err.Some? {
        return;
      }
      ChangeGlobals();
    }
  }
}

/**
 * The four defaults every parser class is exercised with (a string, a float,
 * a boolean and an integer, two of them documented by comments) and what
 * the pipelines make of them.
 */
module Scenario {
  import opened Wrappers
  import opened Text
  import opened Scalars
  import opened OrderedMaps
  import opened Flags

  const Names: seq<string> := ["a_string", "a_float", "a_boolean", "an_integer"]

  function Defaults(): (d: OrderedMap<Scalar>)
    ensures d.Valid()
  {
    OrderedMap(Names, map["a_string" := Str("abc"), "a_float" := Float(1.23),
                          "a_boolean" := Bool(false), "an_integer" := Int(0)])
  }

  /** The four names differ in their third letter (the fourth one already
      in its second). */
  lemma NamesDistinct()
    ensures "a_string" != "a_float" && "a_string" != "a_boolean" && "a_string" != "an_integer"
    ensures "a_float" != "a_boolean" && "a_float" != "an_integer" && "a_boolean" != "an_integer"
  {
    assert "a_string"[2] == 's' && "a_float"[2] == 'f' && "a_boolean"[2] == 'b' && "an_integer"[1] == 'n';
    assert "a_string"[1] == '_' && "a_float"[1] == '_' && "a_boolean"[1] == '_';
  }

  /** What the scenario uses of the four defaults. */
  ghost predicate Fixture(d: OrderedMap<Scalar>)
  {
    && d.Valid() && d.keys == Names
    && d.values["a_string"] == Str("abc") && d.values["a_float"] == Float(1.23)
    && d.values["a_boolean"] == Bool(false) && d.values["an_integer"] == Int(0)
  }

  lemma DefaultsFixture()
    ensures Fixture(Defaults())
  {
    NamesDistinct();
  }

  /** `-b -f 1` with the short letters `sfb`. */
  const ShortTokens: seq<Occurrence> := [Occurrence("-b", None), Occurrence("-f", Some("1"))]

  /** `--a-boolean --a-float 1`. */
  function LongTokens(): seq<Occurrence>
  {
    [Occurrence(LongFlag("a_boolean"), None), Occurrence(LongFlag("a_float"), Some("1"))]
  }

  /** The four names are plain, none is `help`, and `sfb` has three
      distinct letters other than `-` and `h`. */
  lemma DefaultsRegistrable(d: OrderedMap<Scalar>)
    requires Fixture(d)
    ensures Registrable(d, "sfb")
  {
    assert PlainName("a_string") && PlainName("a_float") && PlainName("a_boolean") && PlainName("an_integer");
    assert "sfb"[0] == 's' && "sfb"[1] == 'f' && "sfb"[2] == 'b';
  }

  /** What the tests expect after `-b -f 1`: the four names in order, the
      boolean set, the float 1.0 and the other two defaults. */
  ghost predicate Expected(r: OrderedMap<Scalar>)
  {
    && r.keys == Names
    && "a_string" in r.values && r.values["a_string"] == Str("abc")
    && "a_float" in r.values && r.values["a_float"] == Float(1.0)
    && "a_boolean" in r.values && r.values["a_boolean"] == Bool(true)
    && "an_integer" in r.values && r.values["an_integer"] == Int(0)
  }

  lemma PutsOnDefaults(d: OrderedMap<Scalar>)
    requires Fixture(d)
    ensures Expected(d.Put("a_boolean", Bool(true)).Put("a_float", Float(1.0)))
  {
    NamesDistinct();
    assert "a_boolean" in d.values && "a_float" in d.values;
  }

  lemma ExampleHelp(d: OrderedMap<Scalar>, help: map<string, string>)
    requires Fixture(d) && forall k :: k in Names ==> k in help
    ensures HelpCoversFrom(d, help, 0)
  {
  }

  /** The flags the four defaults get with the short letters `sfb` are
      accepted by a fresh parser. */
  lemma ExampleFlags(d: OrderedMap<Scalar>, help: map<string, string>)
    requires Fixture(d) && forall k :: k in Names ==> k in help
    ensures HelpCoversFrom(d, help, 0)
    ensures RegisterFrom([], d, help, "sfb", 0).error.None?
    ensures WellRegistered(Synthesize(d, help, "sfb"))
  {
    ExampleHelp(d, help);
    DefaultsRegistrable(d);
    ExampleRegisters(d, help);
  }

  lemma ExampleRegisters(d: OrderedMap<Scalar>, help: map<string, string>)
    requires d.Valid() && HelpCoversFrom(d, help, 0) && Registrable(d, "sfb")
    ensures RegisterFrom([], d, help, "sfb", 0).error.None?
    ensures WellRegistered(Synthesize(d, help, "sfb"))
  {
    RegistrationSucceeds(d, help, "sfb");
    SynthesizedWellRegistered(d, help, "sfb");
  }

  /** The float gets `-f`, the boolean `-b`. */
  lemma ExampleShorts(d: OrderedMap<Scalar>, help: map<string, string>)
    requires Fixture(d) && HelpCoversFrom(d, help, 0)
    ensures var specs := Synthesize(d, help, "sfb");
      && specs[1].name == "a_float" && specs[1].short == Some('f') && "-f" in specs[1].OptionStrings()
      && specs[2].name == "a_boolean" && specs[2].short == Some('b') && "-b" in specs[2].OptionStrings()
  {
    SynthesizedShort(d, help, "sfb", 1);
    SynthesizedShort(d, help, "sfb", 2);
    assert "sfb"[1] == 'f' && "sfb"[2] == 'b';
  }

  lemma ShortTokensExample(d: OrderedMap<Scalar>, help: map<string, string>)
    requires Fixture(d) && forall k :: k in Names ==> k in help
    ensures HelpCoversFrom(d, help, 0)
    ensures Parse(Synthesize(d, help, "sfb"), ShortTokens) == Ok(d.Put("a_boolean", Bool(true)).Put("a_float", Float(1.0)))
  {
    ExampleFlags(d, help);
    ExampleShorts(d, help);
    DefaultsRegistrable(d);
    CoerceFloatFromIntegerText();
    assert d.values[d.keys[1]].TypeOf() == FloatKind;
    BooleanThenTyped(d, help, "sfb", 2, "-b", 1, "-f", "1");
  }

  lemma LongTokensExample(d: OrderedMap<Scalar>, help: map<string, string>)
    requires Fixture(d) && forall k :: k in Names ==> k in help
    ensures HelpCoversFrom(d, help, 0)
    ensures Parse(Synthesize(d, help, "sfb"), LongTokens()) == Parse(Synthesize(d, help, "sfb"), ShortTokens)
  {
    ExampleFlags(d, help);
    ExampleShorts(d, help);
    var specs := Synthesize(d, help, "sfb");
    var long := LongTokens();
    assert ShortTokens == [Occurrence(ShortFlag(specs[2].short.value), None), Occurrence(ShortFlag(specs[1].short.value), Some("1"))];
    assert long == [Occurrence(LongFlag(specs[2].name), None), Occurrence(LongFlag(specs[1].name), Some("1"))];
    ShortPairAsLong(InitialNamespace(specs), specs, 2, None, 1, Some("1"));
  }

  /** A fresh parser accepts the four flags; `-b -f 1` with the short
      letters `sfb` sets the boolean, converts `1` to the float 1.0 and keeps
      the other two defaults; the long spelling `--a-boolean --a-float 1`
      gives the same result. */
  lemma ShortFlagsExample(help: map<string, string>)
    requires forall k :: k in Names ==> k in help
    ensures HelpCoversFrom(Defaults(), help, 0)
    ensures RegisterFrom([], Defaults(), help, "sfb", 0).error.None?
    ensures Parse(Synthesize(Defaults(), help, "sfb"), ShortTokens).Ok?
    ensures Expected(Parse(Synthesize(Defaults(), help, "sfb"), ShortTokens).value)
    ensures Parse(Synthesize(Defaults(), help, "sfb"), LongTokens()) == Parse(Synthesize(Defaults(), help, "sfb"), ShortTokens)
  {
    DefaultsFixture();
    ExampleFlags(Defaults(), help);
    ShortTokensExample(Defaults(), help);
    PutsOnDefaults(Defaults());
    LongTokensExample(Defaults(), help);
  }
}

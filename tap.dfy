/**
 * `TypeArgumentParser`: defaults taken from a dataclass object's attribute
 * dict and help texts taken from the comment lines of its class source. The
 * lines after the class header are walked in order: a comment line is
 * buffered, and any other line hands the buffer to the next attribute name.
 */
module Tap {
  import opened Wrappers
  import opened Text
  import opened Scalars
  import opened OrderedMaps
  import opened Comments
  import opened Flags
  import opened PyObjects
  import opened Pipeline

  // ---------------------------------------------------------------------------
  // Source lines

  /** A source line as the comment walk sees it: a comment with its text,
      or anything else. */
  datatype SourceLine = Comment(text: string) | Code

  /** `line.strip().startswith("#")` picks the comment lines, and
      `line.lstrip(" #").strip()` is the text of one: shorter than the line,
      with no whitespace at either end. */
  function Classify(line: string): (r: SourceLine)
    ensures r.Comment? ==> |r.text| < |line|
    ensures r.Comment? && r.text != [] ==> !IsSpace(r.text[0]) && !IsSpace(r.text[|r.text| - 1])
  {
    if StartsWith(Strip(line), "#") then
      var kept := LStripChars(line, {' ', '#'});
      StripSpaces(kept);
      CommentShorter(line, kept);
      Comment(Strip(kept))
    else Code
  }

  /** A comment line loses at least one character to `lstrip(" #").strip()`. */
  lemma {:induction false} CommentShorter(line: string, kept: string)
    requires StartsWith(Strip(line), "#") && kept == LStripChars(line, {' ', '#'})
    ensures |Strip(kept)| < |line|
  {
    var stripped := Strip(line);
    assert stripped[0] == '#' by {
      assert stripped[..1] == "#";
    }
    if line[0] != ' ' && line[0] != '#' {
      assert kept == line;
      StripWhole(line);
    }
  }

  /** A comment's text is what is left after its leading spaces and `#`
      are dropped, with the surrounding whitespace stripped; a blank line is
      not a comment. */
  lemma ClassifyDropsMarks(line: string)
    ensures Classify(line).Comment? ==>
      exists n :: && 0 <= n <= |line| && (forall i :: 0 <= i < n ==> line[i] in {' ', '#'})
                  && (n < |line| ==> line[n] !in {' ', '#'}) && Classify(line).text == Strip(line[n..])
    ensures (forall i :: 0 <= i < |line| ==> IsSpace(line[i])) ==> Classify(line) == Code
  {
    LStripCharsDrops(line, {' ', '#'});
    StripSpaces(line);
    var n := |line| - |LStripChars(line, {' ', '#'})|;
    assert Strip(LStripChars(line, {' ', '#'})) == Strip(line[n..]);
  }

  /** Each of `source` classified, in order. */
  function ClassifyAll(source: seq<string>): (r: seq<SourceLine>)
    ensures |r| == |source|
  {
    if source == [] then [] else [Classify(source[0])] + ClassifyAll(source[1..])
  }

  lemma {:induction false} ClassifyAllAt(source: seq<string>, i: nat)
    requires i < |source|
    ensures ClassifyAll(source)[i] == Classify(source[i])
    decreases i
  {
    if i > 0 {
      ClassifyAllAt(source[1..], i - 1);
    }
  }

  /** The lines after the class header, `source_lines[1:]` (none for an
      empty list), classified. */
  function Body(lines: seq<string>): (r: seq<SourceLine>)
    ensures lines == [] ==> r == []
    ensures lines != [] ==> |r| == |lines| - 1
  {
    if lines == [] then [] else ClassifyAll(lines[1..])
  }

  /** Line `i` of the body is line `i + 1` of the class source. */
  lemma BodyAt(lines: seq<string>, i: nat)
    requires i + 1 < |lines|
    ensures Body(lines)[i] == Classify(lines[i + 1])
  {
    ClassifyAllAt(lines[1..], i);
  }

  /** The number of non-comment lines among `lines[i..j]`. */
  function CodeCount(lines: seq<SourceLine>, i: nat, j: nat): (n: nat)
    requires i <= j <= |lines|
    ensures n <= j - i
    decreases j - i
  {
    if i == j then 0 else (if lines[i].Comment? then 0 else 1) + CodeCount(lines, i + 1, j)
  }

  /** The texts of the comment lines right above line `j`, up to the previous
      non-comment line. */
  function CommentsAbove(lines: seq<SourceLine>, j: nat): seq<string>
    requires j <= |lines|
  {
    if j == 0 || lines[j - 1].Code? then [] else CommentsAbove(lines, j - 1) + [lines[j - 1].text]
  }

  // ---------------------------------------------------------------------------
  // The comment walk of `_read_obj`

  /** The help dict after the walk, and whether `next` ran out of keys. */
  datatype Association = Association(help: map<string, string>, exhausted: bool)

  /** The walk from line `i` on, with `next` the position of the key
      iterator and `msgs` the buffer: the help texts written so far stay when
      the iterator runs out. */
  function AssociateFrom(lines: seq<SourceLine>, keys: seq<string>, i: nat, next: nat, msgs: seq<string>,
                         help: map<string, string>): Association
    requires i <= |lines| && next <= |keys|
    decreases |lines| - i
  {
    if i == |lines| then Association(help, false)
    else if lines[i].Comment? then AssociateFrom(lines, keys, i + 1, next, msgs + [lines[i].text], help)
    else if next == |keys| then Association(help, true)
    else AssociateFrom(lines, keys, i + 1, next + 1, [], help[keys[next] := JoinMsgAsWritten(msgs)])
  }

  /** The walk over the class body against the attribute names: `next`
      raises exactly when the body has more non-comment lines than there are
      attributes. */
  function Associate(lines: seq<string>, keys: seq<string>, help: map<string, string>): (r: Association)
    ensures r.exhausted <==> CodeCount(Body(lines), 0, |Body(lines)|) > |keys|
  {
    AssociateExhaustedIff(Body(lines), keys, 0, 0, [], help);
    AssociateFrom(Body(lines), keys, 0, 0, [], help)
  }

  /** The iterator runs out exactly when there are more non-comment lines
      than keys left. */
  lemma {:induction false} AssociateExhaustedIff(lines: seq<SourceLine>, keys: seq<string>, i: nat, next: nat,
                                                 msgs: seq<string>, help: map<string, string>)
    requires i <= |lines| && next <= |keys|
    ensures AssociateFrom(lines, keys, i, next, msgs, help).exhausted <==> next + CodeCount(lines, i, |lines|) > |keys|
    decreases |lines| - i
  {
    if i < |lines| {
      if lines[i].Comment? {
        AssociateExhaustedIff(lines, keys, i + 1, next, msgs + [lines[i].text], help);
      } else if next < |keys| {
        AssociateExhaustedIff(lines, keys, i + 1, next + 1, [], help[keys[next] := JoinMsgAsWritten(msgs)]);
      }
    }
  }

  /** From line `i` on, the walk writes only the keys the iterator reaches. */
  lemma {:induction false} AssociateLeaves(lines: seq<SourceLine>, keys: seq<string>, i: nat, next: nat,
                                           msgs: seq<string>, help: map<string, string>, k: string)
    requires i <= |lines| && next <= |keys|
    requires forall m :: next <= m < |keys| && m < next + CodeCount(lines, i, |lines|) ==> keys[m] != k
    ensures var r := AssociateFrom(lines, keys, i, next, msgs, help);
      && (k in r.help <==> k in help)
      && (k in help ==> r.help[k] == help[k])
    decreases |lines| - i
  {
    if i < |lines| {
      if lines[i].Comment? {
        AssociateLeaves(lines, keys, i + 1, next, msgs + [lines[i].text], help, k);
      } else if next < |keys| {
        assert keys[next] != k;
        AssociateLeaves(lines, keys, i + 1, next + 1, [], help[keys[next] := JoinMsgAsWritten(msgs)], k);
      }
    }
  }

  /** A non-comment line at `i` with a key left hands the buffer to that key,
      for good when the keys are distinct. */
  lemma AssociateBindsHere(lines: seq<SourceLine>, keys: seq<string>, i: nat, next: nat,
                           msgs: seq<string>, help: map<string, string>)
    requires Distinct(keys) && i < |lines| && next < |keys| && lines[i].Code?
    ensures var r := AssociateFrom(lines, keys, i, next, msgs, help);
      keys[next] in r.help && r.help[keys[next]] == JoinMsgAsWritten(msgs)
  {
    var help' := help[keys[next] := JoinMsgAsWritten(msgs)];
    assert AssociateFrom(lines, keys, i, next, msgs, help) == AssociateFrom(lines, keys, i + 1, next + 1, [], help');
    AssociateLeaves(lines, keys, i + 1, next + 1, [], help', keys[next]);
  }

  /** The non-comment line `j` gives the key the iterator is at, the one
      after as many keys as there are non-comment lines before `j`, the
      comments right above `j` as its help. */
  lemma {:induction false} AssociateBinds(lines: seq<SourceLine>, keys: seq<string>, i: nat, next: nat,
                                          msgs: seq<string>, help: map<string, string>, j: nat)
    requires Distinct(keys) && i <= j < |lines| && next <= |keys| && lines[j].Code?
    requires msgs == CommentsAbove(lines, i)
    requires next + CodeCount(lines, i, j) < |keys|
    ensures var r := AssociateFrom(lines, keys, i, next, msgs, help);
      var k := keys[next + CodeCount(lines, i, j)];
      k in r.help && r.help[k] == JoinMsgAsWritten(CommentsAbove(lines, j))
    decreases j - i
  {
    var r := AssociateFrom(lines, keys, i, next, msgs, help);
    var goal := JoinMsgAsWritten(CommentsAbove(lines, j));
    if lines[i].Comment? {
      var msgs' := msgs + [lines[i].text];
      var r' := AssociateFrom(lines, keys, i + 1, next, msgs', help);
      assert r == r';
      var c := CodeCount(lines, i + 1, j);
      assert CodeCount(lines, i, j) == c;
      assert msgs' == CommentsAbove(lines, i + 1);
      AssociateBinds(lines, keys, i + 1, next, msgs', help, j);
      assert keys[next + c] in r'.help && r'.help[keys[next + c]] == goal;
    } else if i == j {
      assert CodeCount(lines, i, j) == 0;
      AssociateBindsHere(lines, keys, i, next, msgs, help);
      assert keys[next] in r.help && r.help[keys[next]] == goal;
    } else {
      var help' := help[keys[next] := JoinMsgAsWritten(msgs)];
      var r' := AssociateFrom(lines, keys, i + 1, next + 1, [], help');
      assert r == r';
      var c := CodeCount(lines, i + 1, j);
      assert CodeCount(lines, i, j) == 1 + c;
      assert CommentsAbove(lines, i + 1) == [];
      AssociateBinds(lines, keys, i + 1, next + 1, [], help', j);
      assert keys[next + 1 + c] in r'.help && r'.help[keys[next + 1 + c]] == goal;
    }
  }

  /** With as many non-comment lines in the class body as attributes, the
      walk gets through and every attribute gets a help text. */
  lemma AssociateCovers(lines: seq<string>, attrs: OrderedMap<Scalar>, help: map<string, string>)
    requires attrs.Valid() && CodeCount(Body(lines), 0, |Body(lines)|) == |attrs.keys|
    ensures var a := Associate(lines, attrs.keys, help);
      !a.exhausted && HelpCoversFrom(attrs, a.help, 0)
  {
    var body := Body(lines);
    AssociateExhaustedIff(body, attrs.keys, 0, 0, [], help);
    forall m | 0 <= m < |attrs.keys|
      ensures attrs.keys[m] in Associate(lines, attrs.keys, help).help
    {
      var j := CodeLineAt(body, 0, m);
      AssociateBinds(body, attrs.keys, 0, 0, [], help, j);
    }
  }

  /** The position of the non-comment line that comes after `m` others, from
      line `i` on. */
  function CodeLineAt(lines: seq<SourceLine>, i: nat, m: nat): (j: nat)
    requires i <= |lines| && m < CodeCount(lines, i, |lines|)
    ensures i <= j < |lines| && lines[j].Code? && CodeCount(lines, i, j) == m
    decreases |lines| - i
  {
    if lines[i].Comment? then
      var j := CodeLineAt(lines, i + 1, m);
      j
    else if m == 0 then i
    else
      var j := CodeLineAt(lines, i + 1, m - 1);
      j
  }

  /** A lone `#` line right above an attribute leaves the buffer `[""]`, and
      the attribute's help text comes out empty. */
  lemma {:induction false} BareHashEmptyHelp(header: string, line: string, keys: seq<string>, help: map<string, string>)
    requires keys != [] && Classify(line).Code?
    ensures var a := Associate([header, "#", line], keys, help);
      keys[0] in a.help && a.help[keys[0]] == ""
  {
    assert Strip("#") == "#";
    assert LStripChars("#", {' ', '#'}) == "";
    assert Classify("#") == Comment("");
    var lines := [header, "#", line];
    assert lines[1..] == ["#", line];
    assert ClassifyAll(["#", line]) == [Comment(""), Code] by {
      assert ["#", line][1..] == [line];
      assert ClassifyAll([line]) == [Code] by {
        assert [line][1..] == [];
      }
    }
    var body := [Comment(""), Code];
    assert Body(lines) == body;
    assert [] + [""] == [""];
    var r := AssociateFrom(body, keys, 0, 0, [], help);
    assert r == AssociateFrom(body, keys, 1, 0, [""], help);
    assert r == AssociateFrom(body, keys, 2, 1, [], help[keys[0] := JoinMsgAsWritten([""])]);
  }

  /** So `_add_arguments` then never fails on a missing help text. */
  lemma AssociatedNoMissingHelp(lines: seq<string>, attrs: OrderedMap<Scalar>, help: map<string, string>,
                                actions: seq<FlagSpec>, shorts: string)
    requires attrs.Valid() && CodeCount(Body(lines), 0, |Body(lines)|) == |attrs.keys|
    ensures var reg := RegisterFrom(actions, attrs, Associate(lines, attrs.keys, help).help, shorts, 0);
      !reg.error.Some? || !reg.error.value.MissingHelp?
  {
    AssociateCovers(lines, attrs, help);
    CoveredNeverMissingHelp(actions, attrs, Associate(lines, attrs.keys, help).help, shorts, 0);
  }

  /** With no flags given, a fresh parser gives back the object's attributes
      and writing them back changes nothing. */
  lemma NoTokensKeepObject(lines: seq<string>, attrs: OrderedMap<Scalar>, help: map<string, string>, shorts: string)
    requires attrs.Valid() && Registrable(attrs, shorts)
    requires CodeCount(Body(lines), 0, |Body(lines)|) == |attrs.keys|
    ensures var run := RegisterThenParse([], attrs, Associate(lines, attrs.keys, help).help, shorts, []);
      && run.outcome == Ok(attrs)
      && attrs.UpdateWith(run.outcome.value) == attrs
  {
    AssociateCovers(lines, attrs, help);
    FreshParserNoFlags(attrs, Associate(lines, attrs.keys, help).help, shorts);
    UpdateWithHeld(attrs, attrs);
  }

  // ---------------------------------------------------------------------------
  // The parser object

  class TypeArgumentParser {
    var defaults: OrderedMap<Scalar>
    var help: map<string, string>
    var args: OrderedMap<Scalar>
    var parser: ArgumentParser

    ghost predicate Valid()
      reads this, parser
    {
      defaults.Valid() && args.Valid() && parser.Valid()
    }

    constructor ()
      ensures Valid() && fresh(parser) && parser.actions == []
      ensures defaults == Empty() && help == map[] && args == Empty()
    {
      defaults := Empty();
      help := map[];
      args := Empty();
      parser := new ArgumentParser();
    }

    /** `_read_obj(obj)`, given the source lines of the object's class: a
        copy of its attributes, and the comment walk over the lines after the
        header with an iterator over the attribute names. */
    method ReadObj(obj: Instance, lines: seq<string>) returns (err: Option<Failure>)
      requires Valid() && obj.Valid()
      modifies this
      ensures Valid() && parser == old(parser) && args == old(args)
      ensures defaults == obj.attrs
      ensures var a := Associate(lines, obj.attrs.keys, old(help));
        help == a.help && err == if a.exhausted then Some(KeysExhausted) else None
    {
      defaults := obj.attrs;
      var keys := defaults.keys;
      var source := if lines == [] then [] else lines[1..];
      ghost var body := ClassifyAll(source);
      ghost var walk := Associate(lines, keys, help);
      assert walk == AssociateFrom(body, keys, 0, 0, [], help);
      var h := help;
      var msgs: seq<string> := [];
      var next := 0;
      var i := 0;
      while i < |source|
        invariant i <= |source| == |body| && next <= |keys|
        invariant AssociateFrom(body, keys, i, next, msgs, h) == walk
        invariant defaults == obj.attrs && help == old(help) && parser == old(parser) && args == old(args)
        decreases |source| - i
      {
        var line := Classify(source[i]);
        ClassifyAllAt(source, i);
        if line.Comment? {
          msgs := msgs + [line.text];
        } else {
          if next == |keys| {
            help := h;
            return Some(KeysExhausted);
          }
          h := h[keys[next] := JoinMsgAsWritten(msgs)];
          next := next + 1;
          msgs := [];
        }
        i := i + 1;
      }
      help := h;
      err := None;
    }

    /** `_add_arguments(shorts)`. */
    method AddArguments(shorts: string) returns (err: Option<Failure>)
      requires Valid()
      modifies parser
      ensures Valid()
      ensures var reg := RegisterFrom(old(parser.actions), defaults, help, shorts, 0);
        && parser.actions == reg.actions
        && err == if reg.error.Some? then Some(Refused(reg.error.value)) else None
    {
      var e := Flags.AddArguments(parser, defaults, help, shorts);
      err := if e.Some? then Some(Refused(e.value)) else None;
    }

    /** `_parse_args(args)`: a parse that exits leaves `args` as it was. */
    method ParseArgsOnly(occs: seq<Occurrence>) returns (err: Option<Failure>)
      requires Valid()
      modifies this
      ensures Valid() && defaults == old(defaults) && help == old(help) && parser == old(parser)
      ensures var parsed := Parse(parser.actions, occs);
        if parsed.Ok? then args == parsed.value && err.None?
        else args == old(args) && err == Some(Usage(parsed.error))
    {
      var parsed := parser.ParseArgs(occs);
      if parsed.Err? {
        return Some(Usage(parsed.error));
      }
      ParseFromValid(InitialNamespace(parser.actions), parser.actions, occs);
      args := parsed.value;
      err := None;
    }

    /** `_change_obj(obj)`. */
    method ChangeObj(obj: Instance)
      requires Valid() && obj.Valid()
      modifies obj
      ensures obj.Valid() && obj.attrs == old(obj.attrs).UpdateWith(args)
    {
      obj.Update(args);
    }

    /** `parse_obj(obj, args, shorts=shorts)`, given the source lines of the
        object's class. */
    method ParseObj(obj: Instance, lines: seq<string>, occs: seq<Occurrence>, shorts: string)
      returns (err: Option<Failure>)
      requires Valid() && obj.Valid()
      modifies this, parser, obj
      ensures Valid() && obj.Valid() && parser == old(parser)
      ensures defaults == old(obj.attrs)
      ensures var read := Associate(lines, old(obj.attrs.keys), old(help));
        && help == read.help
        && if read.exhausted then
             err == Some(KeysExhausted) && args == old(args) && parser.actions == old(parser.actions)
             && obj.attrs == old(obj.attrs)
           else
             var run := RegisterThenParse(old(parser.actions), defaults, help, shorts, occs);
             && parser.actions == run.actions
             && if run.outcome.Ok? then
                  err.None? && args == run.outcome.value && obj.attrs == old(obj.attrs).UpdateWith(args)
                else
                  err == Some(run.outcome.error) && args == old(args) && obj.attrs == old(obj.attrs)
    {
      err := ReadObj(obj, lines);
      if err.Some? {
        return;
      }
      err := AddArguments(shorts);
      if err.Some? {
        return;
      }
      err := ParseArgsOnly(occs);
      if err.Some? {
        return;
      }
      ChangeObj(obj);
    }
  }
}

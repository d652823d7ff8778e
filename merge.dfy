/**
 * `merge_config` (config.py lines 129-171): find the runner's ini file,
 * read its `[pytest-watch]` section and fill in, from that section, every
 * `--option` the command line left falsy.
 *
 * The parsed command line is an ordered dictionary from option name to
 * value, updated in place.  The parser library's reading of the calls
 * `read` makes is the parameter `parse` (None when it raises), and its
 * `getboolean` is `getBoolean`, applied to the stored text (None when the
 * text is not a boolean).  `getboolean` reads the option through the
 * overridden `get`, so a stored text holding a newline reaches it as a
 * list and fails whatever `getBoolean` says.
 */
module Merge {
  import opened Outcomes
  import opened Text
  import opened MultiLineParser
  import opened Collect

  /** Line 61. */
  const CliOptionPrefix: string := "--"

  /** The section read on lines 143 and 156. */
  const SectionName: string := "pytest-watch"

  /** A value of the parsed command line: a flag, a list, a text, or None. */
  datatype ArgValue = Flag(on: bool) | Items(items: seq<string>) | Str(text: string) | NoValue

  /** Python truthiness of a command-line value (line 152). */
  predicate ArgTruthy(v: ArgValue) {
    match v
    case Flag(b) => b
    case Items(xs) => xs != []
    case Str(t) => t != ""
    case NoValue => false
  }

  /** The option's name in the section: the command-line name without `--` (line 149). */
  function ConfigName(cliName: string): (name: string)
    requires CliOptionPrefix <= cliName
    ensures CliOptionPrefix + name == cliName
  {
    cliName[|CliOptionPrefix|..]
  }

  /** `get`'s result as a command-line value: a list stays a list, a text a text. */
  function FromConfig(c: ConfigValue): ArgValue {
    match c
    case Scalar(t) => Str(t)
    case Lines(ps) => Items(ps)
  }

  /** What `extend` (a list) or `append` (a text) adds to a list option (lines 162-165). */
  function ItemsOf(c: ConfigValue): seq<string> {
    match c
    case Scalar(t) => [t]
    case Lines(ps) => ps
  }

  /**
   * One turn of the loop of lines 146-169 for the option `cliName` with
   * value `v`: the value it leaves, or None when `getboolean` fails, either
   * because `get` hands it a list or because the text is not a boolean.
   */
  function MergeKey(cliName: string, v: ArgValue, section: Section, getBoolean: string -> Option<bool>): Option<ArgValue> {
    if !(CliOptionPrefix <= cliName) || ArgTruthy(v) then Some(v)
    else
      var name := ConfigName(cliName);
      if name !in section then Some(v)
      else
        match v
        case Items(xs) => Some(Items(xs + ItemsOf(Get(section, name).value)))
        case Flag(_) =>
          (match Get(section, name).value
           case Lines(_) => None
           case Scalar(t) =>
             match getBoolean(t)
             case None => None
             case Some(b) => Some(Flag(b)))
        case _ => Some(FromConfig(Get(section, name).value))
  }

  /**
   * Command-line precedence (lines 147-157): an option without the `--`
   * prefix, one the command line set to a truthy value (a non-empty list
   * included) and one the section does not hold keep their value.  Only a
   * falsy `--option` present in the section can change, and only a flag
   * whose stored text holds a newline or is not a boolean can make the
   * loop fail.
   */
  lemma CliPrecedence(cliName: string, v: ArgValue, section: Section, getBoolean: string -> Option<bool>)
    ensures var r := MergeKey(cliName, v, section, getBoolean);
      r != Some(v) ==> CliOptionPrefix <= cliName && !ArgTruthy(v) && ConfigName(cliName) in section
    ensures MergeKey(cliName, v, section, getBoolean).None? <==>
      && CliOptionPrefix <= cliName && v == Flag(false) && ConfigName(cliName) in section
      && (Newline in section[ConfigName(cliName)] || getBoolean(section[ConfigName(cliName)]).None?)
  {
  }

  /** A non-empty list from the command line is never extended from the section. */
  lemma NonEmptyListKept(cliName: string, items: seq<string>, section: Section, getBoolean: string -> Option<bool>)
    requires items != []
    ensures MergeKey(cliName, Items(items), section, getBoolean) == Some(Items(items))
  {
  }

  /**
   * The kind of a value is kept for lists and flags, and a merged value is
   * what the section says: an empty list receives the stored text's
   * newline-free lines, which joined with newlines give it back; a flag receives `getboolean` of
   * the stored text, and fails when that text holds a newline; any other falsy value receives `get`'s result.
   */
  lemma MergedValue(cliName: string, v: ArgValue, section: Section, getBoolean: string -> Option<bool>)
    requires CliOptionPrefix <= cliName && !ArgTruthy(v) && ConfigName(cliName) in section
    ensures var r := MergeKey(cliName, v, section, getBoolean); var stored := section[ConfigName(cliName)];
      && (v.Items? ==>
            && r.Some? && r.value.Items? && r.value.items != [] && Join(r.value.items, [Newline]) == stored
            && forall i :: 0 <= i < |r.value.items| ==> Newline !in r.value.items[i])
      && (v.Flag? ==> r.Some? ==> r == Some(Flag(getBoolean(stored).value)))
      && (v.Flag? && Newline in stored ==> r.None?)
      && (v.Str? || v.NoValue? ==> r == Some(FromConfig(Get(section, ConfigName(cliName)).value)))
  {
    var name := ConfigName(cliName);
    var r := MergeKey(cliName, v, section, getBoolean);
    if v.Items? {
      assert v.items == [];
      var c := Get(section, name).value;
      assert v.items + ItemsOf(c) == ItemsOf(c);
      assert r == Some(Items(ItemsOf(c)));
      if c.Scalar? {
        assert Join(ItemsOf(c), [Newline]) == c.text;
      }
    }
  }

  /** How the loop of lines 146-169 ends: the values it leaves, and whether `getboolean` failed. */
  datatype LoopEnd = LoopEnd(values: map<string, ArgValue>, failed: bool)

  /**
   * The loop of lines 146-169 over `keys`, in order, stopping at the first
   * failure.  It never adds or removes an option and never touches an
   * option outside `keys`.
   */
  function MergeKeys(keys: seq<string>, values: map<string, ArgValue>, section: Section, getBoolean: string -> Option<bool>): (e: LoopEnd)
    requires forall i :: 0 <= i < |keys| ==> keys[i] in values
    ensures e.values.Keys == values.Keys
    ensures forall k :: k in values && k !in keys ==> e.values[k] == values[k]
    decreases |keys|
  {
    if keys == [] then LoopEnd(values, false)
    else
      match MergeKey(keys[0], values[keys[0]], section, getBoolean)
      case None => LoopEnd(values, true)
      case Some(v) => MergeKeys(keys[1..], values[keys[0] := v], section, getBoolean)
  }

  /** The position of the first option whose turn fails, or the number of options when none does. */
  function FirstFailure(keys: seq<string>, values: map<string, ArgValue>, section: Section, getBoolean: string -> Option<bool>): (f: nat)
    requires forall i :: 0 <= i < |keys| ==> keys[i] in values
    ensures f <= |keys|
    ensures forall i :: 0 <= i < f ==> MergeKey(keys[i], values[keys[i]], section, getBoolean).Some?
    ensures f < |keys| ==> MergeKey(keys[f], values[keys[f]], section, getBoolean).None?
    decreases |keys|
  {
    if keys == [] || MergeKey(keys[0], values[keys[0]], section, getBoolean).None? then 0
    else 1 + FirstFailure(keys[1..], values, section, getBoolean)
  }

  /** The options are distinct, as a dictionary's keys are. */
  predicate Distinct(keys: seq<string>) {
    forall i, j :: 0 <= i < j < |keys| ==> keys[i] != keys[j]
  }

  /**
   * The effect of the loop, option by option: the options before the first
   * failing one get their merged value, the failing one and every option
   * after it keep theirs, and the loop fails exactly when some turn does.
   */
  lemma {:induction false} MergeKeysEffect(keys: seq<string>, values: map<string, ArgValue>, section: Section, getBoolean: string -> Option<bool>)
    requires Distinct(keys) && forall i :: 0 <= i < |keys| ==> keys[i] in values
    ensures var e := MergeKeys(keys, values, section, getBoolean); var f := FirstFailure(keys, values, section, getBoolean);
      && (e.failed <==> f < |keys|)
      && (forall i :: 0 <= i < f ==> e.values[keys[i]] == MergeKey(keys[i], values[keys[i]], section, getBoolean).value)
      && (forall i :: f <= i < |keys| ==> e.values[keys[i]] == values[keys[i]])
    decreases |keys|
  {
    if keys != [] {
      var k := keys[0];
      var r := MergeKey(k, values[k], section, getBoolean);
      if r.Some? {
        var rest := keys[1..];
        var updated := values[k := r.value];
        DistinctTail(keys);
        MergeKeysEffect(rest, updated, section, getBoolean);
        FirstFailureFrame(rest, updated, values, section, getBoolean);
        var e := MergeKeys(rest, updated, section, getBoolean);
        assert e.values[k] == r.value by {
          assert k !in rest;
        }
        forall i | 1 <= i < |keys| ensures keys[i] == rest[i - 1] { }
      }
    }
  }

  /** The options after the first are options the first is not. */
  lemma DistinctTail(keys: seq<string>)
    requires keys != [] && Distinct(keys)
    ensures Distinct(keys[1..]) && keys[0] !in keys[1..]
  {
    assert forall i :: 0 <= i < |keys| - 1 ==> keys[1..][i] == keys[i + 1];
  }

  /** FirstFailure depends only on the values of the options it walks over. */
  lemma {:induction false} FirstFailureFrame(keys: seq<string>, a: map<string, ArgValue>, b: map<string, ArgValue>, section: Section, getBoolean: string -> Option<bool>)
    requires forall i :: 0 <= i < |keys| ==> keys[i] in a && keys[i] in b && a[keys[i]] == b[keys[i]]
    ensures FirstFailure(keys, a, section, getBoolean) == FirstFailure(keys, b, section, getBoolean)
    decreases |keys|
  {
    if keys != [] {
      FirstFailureFrame(keys[1..], a, b, section, getBoolean);
    }
  }

  /** One turn of the loop at position `i`, as MergeKeys takes it. */
  lemma MergeKeysStep(keys: seq<string>, i: nat, values: map<string, ArgValue>, section: Section, getBoolean: string -> Option<bool>)
    requires i < |keys| && forall j :: 0 <= j < |keys| ==> keys[j] in values
    ensures var k := keys[i]; var r := MergeKey(k, values[k], section, getBoolean);
      && (r.None? ==> MergeKeys(keys[i..], values, section, getBoolean) == LoopEnd(values, true))
      && (r.Some? ==> MergeKeys(keys[i..], values, section, getBoolean) == MergeKeys(keys[i + 1..], values[k := r.value], section, getBoolean))
      && (r == Some(values[k]) ==> MergeKeys(keys[i..], values, section, getBoolean) == MergeKeys(keys[i + 1..], values, section, getBoolean))
  {
    var k := keys[i];
    assert keys[i..][0] == k && keys[i..][1..] == keys[i + 1..];
    assert values[k := values[k]] == values;
  }

  /** What `merge_config` prints: line 131, and the warning of lines 119-123. */
  datatype Notice = LocatingInifile | RetryWarning

  /** The result of `merge_config` and the command-line values it leaves. */
  datatype Merged = Merged(result: Outcome<bool>, values: map<string, ArgValue>)

  /**
   * `merge_config` after discovery has ended with `found`: False for an
   * interrupt or a collection error, any other exception passed on, True
   * with nothing changed when there is no ini file or no section, the
   * parse error of reading the file passed on, and otherwise the loop over
   * the options, whose `getboolean` failure is passed on.
   */
  function MergeOutcome(keys: seq<string>, values: map<string, ArgValue>, found: Outcome<Option<string>>,
                        files: map<string, string>, parse: seq<ReadAction> -> Option<map<string, Section>>,
                        getBoolean: string -> Option<bool>): Merged
    requires forall i :: 0 <= i < |keys| ==> keys[i] in values
  {
    match found
    case Raised(e) =>
      if e == KeyboardInterrupt || e == CollectError then Merged(Returned(false), values)
      else Merged(Raised(e), values)
    case Returned(path) =>
      if !Truthy(path) then Merged(Returned(true), values)
      else
        match parse(ReadEffects([path.value], files))
        case None => Merged(Raised(ParseError), values)
        case Some(sections) =>
          if SectionName !in sections then Merged(Returned(true), values)
          else
            var e := MergeKeys(keys, values, sections[SectionName], getBoolean);
            Merged(if e.failed then Raised(NotABoolean) else Returned(true), e.values)
  }

  /**
   * `merge_config` returns False exactly when discovery raised
   * KeyboardInterrupt or CollectError, and then changes nothing; it
   * returns True or raises in every other case, and never adds or removes
   * an option.
   */
  lemma FalseOnlyOnDiscoveryFailure(keys: seq<string>, values: map<string, ArgValue>, found: Outcome<Option<string>>,
                                    files: map<string, string>, parse: seq<ReadAction> -> Option<map<string, Section>>,
                                    getBoolean: string -> Option<bool>)
    requires forall i :: 0 <= i < |keys| ==> keys[i] in values
    ensures var m := MergeOutcome(keys, values, found, files, parse, getBoolean);
      && (m.result == Returned(false) <==> found == Raised(KeyboardInterrupt) || found == Raised(CollectError))
      && (m.result == Returned(false) ==> m.values == values)
      && m.values.Keys == values.Keys
  {
  }

  /**
   * Without an ini file, or without a `[pytest-watch]` section in it, the
   * command line is left as it is and the result is True.
   */
  lemma NoConfigNoChange(keys: seq<string>, values: map<string, ArgValue>, path: Option<string>,
                         files: map<string, string>, parse: seq<ReadAction> -> Option<map<string, Section>>,
                         getBoolean: string -> Option<bool>)
    requires forall i :: 0 <= i < |keys| ==> keys[i] in values
    requires !Truthy(path) || (parse(ReadEffects([path.value], files)).Some? && SectionName !in parse(ReadEffects([path.value], files)).value)
    ensures MergeOutcome(keys, values, Returned(path), files, parse, getBoolean) == Merged(Returned(true), values)
  {
  }

  /**
   * `--ignore` with an empty list, and a section whose `ignore` holds
   * `a\nb` (backslash and `n`, what a bracket array `[a, b]` becomes once
   * read) gets one item `a\nb`, not the two items `a` and `b`.
   */
  lemma IgnoreScenario(section: Section, getBoolean: string -> Option<bool>)
    requires "ignore" in section && section["ignore"] == Join(["a", "b"], ArraySyntax.Separator)
    ensures MergeKey("--ignore", Items([]), section, getBoolean) == Some(Items([['a', '\\', 'n', 'b']]))
  {
    var stored := ['a', '\\', 'n', 'b'];
    assert Join(["a", "b"], ArraySyntax.Separator) == stored;
    BracketArrayReadsAsScalar(["a", "b"], section, "ignore");
    assert ConfigName("--ignore") == "ignore";
    assert [] + [stored] == [stored];
  }

  /** The parsed command line: its option names in order, and the value of each. */
  class Arguments {
    var keys: seq<string>
    var values: map<string, ArgValue>

    ghost predicate Valid()
      reads this
    {
      Distinct(keys) && forall k :: k in values <==> k in keys
    }
  }

  /**
   * `merge_config` (lines 129-171): its result and the command-line values
   * it leaves are MergeOutcome of what discovery found, and it prints what
   * Notice lists, in order.
   */
  method MergeConfig(args: Arguments, pytestArgs: seq<string>, silent: bool, verbose: bool,
                     host: Invocation -> HostRun, codes: ExitCodes, files: map<string, string>,
                     parse: seq<ReadAction> -> Option<map<string, Section>>, getBoolean: string -> Option<bool>)
    returns (r: Outcome<bool>, notices: seq<Notice>)
    requires args.Valid()
    modifies args
    ensures args.Valid() && args.keys == old(args.keys)
    ensures var d := Discovery(pytestArgs, silent, host, codes);
      && Merged(r, args.values) == MergeOutcome(old(args.keys), old(args.values), d.outcome, files, parse, getBoolean)
      && notices == (if verbose then [LocatingInifile] else []) + (if d.warnings == 1 then [RetryWarning] else [])
  {
    notices := if verbose then [LocatingInifile] else [];
    var found, runs, warnings := CollectConfigPath(pytestArgs, silent, host, codes);
    if warnings == 1 {
      notices := notices + [RetryWarning];
    }
    if found.Raised? {
      if found.exc == KeyboardInterrupt || found.exc == CollectError {
        return Returned(false), notices;
      }
      return Raised(found.exc), notices;
    }
    var configPath := found.value;
    if !Truthy(configPath) {
      return Returned(true), notices;
    }
    var config := new MultiLineConfigParser();
    config.Read(OnePath(configPath.value), files);
    assert config.calls == ReadEffects([configPath.value], files);
    var parsed := parse(config.calls);
    if parsed.None? {
      return Raised(ParseError), notices;
    }
    if SectionName !in parsed.value {
      return Returned(true), notices;
    }
    var failed := MergeSection(args, parsed.value[SectionName], getBoolean);
    r := if failed then Raised(NotABoolean) else Returned(true);
  }

  /**
   * The loop of lines 146-169 over the options in order, updating them in
   * place; it stops at the first `getboolean` failure (`failed`), which
   * `merge_config` passes on.  It leaves the options as MergeKeys says.
   */
  method MergeSection(args: Arguments, section: Section, getBoolean: string -> Option<bool>) returns (failed: bool)
    requires args.Valid()
    modifies args
    ensures args.Valid() && args.keys == old(args.keys)
    ensures LoopEnd(args.values, failed) == MergeKeys(old(args.keys), old(args.values), section, getBoolean)
  {
    ghost var goal := MergeKeys(args.keys, args.values, section, getBoolean);
    var i := 0;
    while i < |args.keys|
      invariant i <= |args.keys|
      invariant args.keys == old(args.keys) && args.values.Keys == old(args.values).Keys
      invariant MergeKeys(args.keys[i..], args.values, section, getBoolean) == goal
    {
      MergeKeysStep(args.keys, i, args.values, section, getBoolean);
      var ok := MergeOption(args, args.keys[i], section, getBoolean);
      if !ok {
        return true;
      }
      i := i + 1;
    }
    failed := false;
  }

  /**
   * The body of the loop (lines 147-169) for the option `cliName`: its
   * value is updated in place as MergeKey says, or, when `getboolean`
   * fails (`ok` false), nothing changes.
   */
  method MergeOption(args: Arguments, cliName: string, section: Section, getBoolean: string -> Option<bool>) returns (ok: bool)
    requires cliName in args.values
    modifies args
    ensures args.keys == old(args.keys)
    ensures ok <==> MergeKey(cliName, old(args.values)[cliName], section, getBoolean).Some?
    ensures ok ==> args.values == old(args.values)[cliName := MergeKey(cliName, old(args.values)[cliName], section, getBoolean).value]
    ensures !ok ==> args.values == old(args.values)
  {
    var current := args.values[cliName];
    if !(CliOptionPrefix <= cliName) {
      assert args.values[cliName := current] == args.values;
      return true;
    }
    var configName := cliName[|CliOptionPrefix|..];
    if ArgTruthy(current) {
      assert args.values[cliName := current] == args.values;
      return true;
    }
    if configName !in section {
      assert args.values[cliName := current] == args.values;
      return true;
    }
    assert configName == ConfigName(cliName);
    match current {
      case Items(xs) =>
        match Get(section, configName).value {
          case Lines(parts) =>
            args.values := args.values[cliName := Items(xs + parts)];
          case Scalar(t) =>
            args.values := args.values[cliName := Items(xs + [t])];
        }
      case Flag(_) =>
        match Get(section, configName).value {
          case Lines(_) =>
            return false;
          case Scalar(t) =>
            var b := getBoolean(t);
            if b.None? {
              return false;
            }
            args.values := args.values[cliName := Flag(b.value)];
        }
      case _ =>
        args.values := args.values[cliName := FromConfig(Get(section, configName).value)];
    }
    ok := true;
  }
}

/**
 The command-line parser and the canonical spelling it records (`ArgParser::parse`): when re-parsing
 that spelling gives the same result.
 */
module ArgNormalizer {
  import opened Wrappers

  datatype Kind = Flag | ValueOption | MultiOption

  /** What is registered: the kind of each long name, the long name of each short one. */
  datatype Config = Config(kinds: map<string, Kind>, shorts: map<char, string>)
  {
    predicate IsFlag(name: string) {
      name in kinds && kinds[name] == Flag
    }

    /** A name that takes a value. */
    predicate TakesValue(name: string) {
      name in kinds && kinds[name] != Flag
    }

    /** The empty name when the short name is not registered. */
    function Resolve(c: char): string {
      if c in shorts then shorts[c] else ""
    }
  }

  datatype State = State(flags: map<string, bool>, options: map<string, string>, multi: map<string, seq<string>>,
                         positionals: seq<string>, passthrough: seq<string>, normalized: seq<string>, showVersion: bool)

  datatype Outcome =
    | Done | Usage
    | UnknownArgument(display: string) | RequiresValue(display: string) | CannotRead(path: string)

  const ASAN := "asan"
  const OWNERSHIP := "sanitize-ownership"
  const FORCE := "force"

  // ---------------------------------------------------------------------------------------------
  // One token
  // ---------------------------------------------------------------------------------------------

  /** The spellings with a meaning of their own. */
  datatype Spelling = Separator | AsanAlias | OwnershipAlias | Help | Version | Other

  function Classify(arg: string): Spelling {
    if arg == "--" then Separator
    else if arg == "-fsanitize=address" || arg == "--fsanitize=address" then AsanAlias
    else if arg == "-fsanitize=ownership" || arg == "--fsanitize=ownership" || arg == "--sanitize=ownership"
    then OwnershipAlias
    else if arg == "--help" || arg == "-h" then Help
    else if arg == "--version" then Version
    else Other
  }

  datatype Shape = Long(name: string) | Short(c: char) | Dash | Positional

  function ShapeOf(arg: string): Shape {
    if |arg| > 2 && arg[0] == '-' && arg[1] == '-' then Long(arg[2..])
    else if |arg| >= 2 && arg[0] == '-' then (if |arg| == 2 then Short(arg[1]) else Dash)
    else Positional
  }

  function LongForm(name: string): string {
    "--" + name
  }

  /** A flag is recorded, unless it is `force`. */
  function SetFlag(st: State, name: string): State {
    st.(flags := st.flags[name := true], normalized := st.normalized + if name == FORCE then [] else [LongForm(name)])
  }

  function SetValue(cfg: Config, st: State, name: string, value: string): State
    requires cfg.TakesValue(name)
  {
    var recorded := st.normalized + [LongForm(name), value];
    if cfg.kinds[name] == ValueOption then st.(options := st.options[name := value], normalized := recorded)
    else st.(multi := st.multi[name := Values(st, name) + [value]], normalized := recorded)
  }

  function Values(st: State, name: string): seq<string> {
    if name in st.multi then st.multi[name] else []
  }

  datatype StepResult = Next(st: State, rest: seq<string>) | Stop(outcome: Outcome, st: State)

  function Apply(cfg: Config, st: State, name: string, display: string, rest: seq<string>): StepResult {
    if cfg.IsFlag(name) then Next(SetFlag(st, name), rest)
    else if cfg.TakesValue(name) then
      if rest == [] then Stop(RequiresValue(display), st) else Next(SetValue(cfg, st, name, rest[0]), rest[1..])
    else Stop(UnknownArgument(display), st)
  }

  function Ordinary(cfg: Config, st: State, arg: string, rest: seq<string>): StepResult {
    match ShapeOf(arg)
    case Long(name) => Apply(cfg, st, name, LongForm(name), rest)
    case Short(c) =>
      var name := cfg.Resolve(c);
      if name == "" then Stop(UnknownArgument(arg), st) else Apply(cfg, st, name, arg, rest)
    case Dash =>
      var attached := cfg.Resolve(arg[1]);
      if cfg.IsFlag(arg[1..]) then Next(SetFlag(st, arg[1..]), rest)
      else if attached != "" && cfg.TakesValue(attached) then Next(SetValue(cfg, st, attached, arg[2..]), rest)
      else Stop(UnknownArgument(arg), st)
    case Positional => Next(st.(positionals := st.positionals + [arg], normalized := st.normalized + [arg]), rest)
  }

  function Step(cfg: Config, st: State, tokens: seq<string>): (r: StepResult)
    requires tokens != []
    ensures r.Next? ==> |r.rest| < |tokens|
  {
    var rest := tokens[1..];
    match Classify(tokens[0])
    case Separator =>
      Stop(Done, st.(passthrough := st.passthrough + rest, normalized := st.normalized + [tokens[0]] + rest))
    case AsanAlias => Next(SetFlag(st, ASAN), rest)
    case OwnershipAlias => Next(SetFlag(st, OWNERSHIP), rest)
    case Help => Stop(Usage, st)
    case Version => Stop(Done, st.(showVersion := true))
    case Other => Ordinary(cfg, st, tokens[0], rest)
  }

  /** Parsing tokens, response files already expanded. */
  function Parse(cfg: Config, st: State, tokens: seq<string>): (Outcome, State)
    decreases |tokens|
  {
    if tokens == [] then (Done, st)
    else
      match Step(cfg, st, tokens)
      case Stop(outcome, st') => (outcome, st')
      case Next(st', rest) => Parse(cfg, st', rest)
  }

  function Initial(defaults: map<string, string>): State {
    State(map[], defaults, map[], [], [], [], false)
  }

  // ---------------------------------------------------------------------------------------------
  // Re-parsing the recorded spelling
  // ---------------------------------------------------------------------------------------------

  /** The same meaning and the same record; only `force` may differ. */
  ghost predicate Same(a: State, b: State) {
    && a.flags - {FORCE} == b.flags - {FORCE} && a.options == b.options && a.multi == b.multi
    && a.positionals == b.positionals && a.passthrough == b.passthrough && a.normalized == b.normalized
    && a.showVersion == b.showVersion
  }

  predicate Parses(cfg: Config, st: State, tokens: seq<string>) {
    Parse(cfg, st, tokens).0 == Done && !Parse(cfg, st, tokens).1.showVersion
  }

  /** The recorded spelling parses, and to the same result. */
  ghost predicate Reproduces(cfg: Config, defaults: map<string, string>, tokens: seq<string>) {
    var r := Parse(cfg, Initial(defaults), tokens).1;
    Parses(cfg, Initial(defaults), r.normalized) && Same(Parse(cfg, Initial(defaults), r.normalized).1, r)
  }

  /** A name whose long form has a meaning of its own. */
  predicate Reserved(name: string) {
    Classify(LongForm(name)) != Other
  }

  /** A reserved name that some token other than its long form still stands for. */
  predicate Reachable(cfg: Config, name: string) {
    Reserved(name) && name in cfg.kinds && name != "" &&
    ((cfg.IsFlag(name) && |name| >= 2 && name[0] != '-' && Classify("-" + name) == Other) ||
     (exists c :: c in cfg.shorts && cfg.shorts[c] == name && c != '-' && (c != 'h' || !cfg.IsFlag(name))))
  }

  /** Both sanitizers are flags, and no reserved name can be reached. */
  predicate Sound(cfg: Config) {
    cfg.IsFlag(ASAN) && cfg.IsFlag(OWNERSHIP) && forall name | name in cfg.kinds :: !Reachable(cfg, name)
  }

  lemma ReservedNames(name: string)
    ensures Reserved(name) <==>
      name in {"", "fsanitize=address", "fsanitize=ownership", "sanitize=ownership", "help", "version"}
  {
    LongFormIs(name, "fsanitize=address", "--fsanitize=address");
    LongFormIs(name, "fsanitize=ownership", "--fsanitize=ownership");
    LongFormIs(name, "sanitize=ownership", "--sanitize=ownership");
    LongFormIs(name, "help", "--help");
    LongFormIs(name, "version", "--version");
    LongFormIs(name, "", "--");
    assert LongForm(name)[1] == '-' && "-h"[1] == 'h' && "-fsanitize=address"[1] == 'f' &&
      "-fsanitize=ownership"[1] == 'f';
    hide LongForm;
  }

  lemma LongFormIs(name: string, suffix: string, whole: string)
    requires whole == "--" + suffix
    ensures LongForm(name) == whole <==> name == suffix
  {
    assert LongForm(name)[2..] == name && whole[2..] == suffix;
  }

  lemma LongFormShape(name: string)
    requires name != ""
    ensures ShapeOf(LongForm(name)) == Long(name)
  {
    assert LongForm(name)[2..] == name;
  }

  /** A recorded flag is read back as that flag. */
  lemma RereadFlag(cfg: Config, st: State, name: string, more: seq<string>)
    requires cfg.IsFlag(name) && name != "" && !Reserved(name)
    ensures Parse(cfg, st, [LongForm(name)] + more) == Parse(cfg, SetFlag(st, name), more)
  {
    hide Classify, LongForm;
    LongFormShape(name);
    assert ([LongForm(name)] + more)[1..] == more;
  }

  lemma RereadValue(cfg: Config, st: State, name: string, value: string, more: seq<string>)
    requires cfg.TakesValue(name) && name != "" && !Reserved(name)
    ensures Parse(cfg, st, [LongForm(name), value] + more) == Parse(cfg, SetValue(cfg, st, name, value), more)
  {
    hide Classify, LongForm;
    LongFormShape(name);
    assert ([LongForm(name), value] + more)[1..] == [value] + more && ([value] + more)[1..] == more;
  }

  lemma RereadPositional(cfg: Config, st: State, arg: string, more: seq<string>)
    requires Classify(arg) == Other && ShapeOf(arg) == Positional
    ensures Parse(cfg, st, [arg] + more) ==
            Parse(cfg, st.(positionals := st.positionals + [arg], normalized := st.normalized + [arg]), more)
  {
    hide Classify, ShapeOf;
    assert ([arg] + more)[1..] == more;
  }

  /** What one token that parsing goes on from did: the spelling it recorded, which does the same again. */
  ghost predicate Recorded(cfg: Config, st: State, after: State, emitted: seq<string>) {
    && after.normalized == st.normalized + emitted && after.showVersion == st.showVersion
    && forall st2, more | Same(st2, st) :: Replays(cfg, after, emitted, st2, more)
  }

  ghost predicate Replays(cfg: Config, after: State, emitted: seq<string>, st2: State, more: seq<string>) {
    exists after2 :: Parse(cfg, st2, emitted + more) == Parse(cfg, after2, more) && Same(after2, after)
  }

  lemma FlagRecorded(cfg: Config, st: State, name: string)
    requires cfg.IsFlag(name) && name != "" && !Reserved(name)
    ensures Recorded(cfg, st, SetFlag(st, name), if name == FORCE then [] else [LongForm(name)])
  {
    hide Classify, LongForm, Parse, Reserved;
    var emitted := if name == FORCE then [] else [LongForm(name)];
    forall st2, more: seq<string> | Same(st2, st)
      ensures Replays(cfg, SetFlag(st, name), emitted, st2, more)
    {
      if name == FORCE {
        assert emitted + more == more;
        assert SetFlag(st, name).flags - {FORCE} == st.flags - {FORCE};
        assert Same(st2, SetFlag(st, name));
      } else {
        RereadFlag(cfg, st2, name, more);
        SameFlagSet(st2, st, name);
      }
    }
  }

  lemma SameFlagSet(a: State, b: State, name: string)
    requires Same(a, b)
    ensures Same(SetFlag(a, name), SetFlag(b, name))
  {
    hide LongForm;
    var x, y := a.flags[name := true] - {FORCE}, b.flags[name := true] - {FORCE};
    forall k
      ensures k in x <==> k in y
      ensures k in x ==> x[k] == y[k]
    {
      assert k in a.flags - {FORCE} <==> k in b.flags - {FORCE};
      assert k in a.flags - {FORCE} ==> (a.flags - {FORCE})[k] == (b.flags - {FORCE})[k];
    }
    assert x == y;
  }

  lemma ValueRecorded(cfg: Config, st: State, name: string, value: string)
    requires cfg.TakesValue(name) && name != "" && !Reserved(name)
    ensures Recorded(cfg, st, SetValue(cfg, st, name, value), [LongForm(name), value])
  {
    hide Classify, LongForm, Parse, Reserved;
    forall st2, more: seq<string> | Same(st2, st)
      ensures Replays(cfg, SetValue(cfg, st, name, value), [LongForm(name), value], st2, more)
    {
      RereadValue(cfg, st2, name, value, more);
      assert Same(SetValue(cfg, st2, name, value), SetValue(cfg, st, name, value));
    }
  }

  lemma PositionalRecorded(cfg: Config, st: State, arg: string)
    requires Classify(arg) == Other && ShapeOf(arg) == Positional
    ensures Recorded(cfg, st, st.(positionals := st.positionals + [arg], normalized := st.normalized + [arg]), [arg])
  {
    hide Classify, ShapeOf, Parse;
    var after := st.(positionals := st.positionals + [arg], normalized := st.normalized + [arg]);
    forall st2, more: seq<string> | Same(st2, st)
      ensures Replays(cfg, after, [arg], st2, more)
    {
      RereadPositional(cfg, st2, arg, more);
      assert Same(st2.(positionals := st2.positionals + [arg], normalized := st2.normalized + [arg]), after);
    }
  }

  /** A name that a token stands for is not reserved, in a sound configuration. */
  lemma StandsForUnreserved(cfg: Config, arg: string, name: string)
    requires Sound(cfg) && Classify(arg) == Other && name in cfg.kinds && name != ""
    requires match ShapeOf(arg)
      case Long(n) => n == name
      case Short(c) => c in cfg.shorts && cfg.shorts[c] == name
      case Dash => (cfg.IsFlag(name) && arg[1..] == name) ||
                   (cfg.TakesValue(name) && arg[1] in cfg.shorts && cfg.shorts[arg[1]] == name)
      case Positional => false
    ensures !Reserved(name)
  {
    match ShapeOf(arg)
    case Long(n) => assert arg == LongForm(name);
    case Short(c) => NotHelpOrSeparator(arg, c);
    case Dash =>
      if cfg.IsFlag(name) && arg[1..] == name { assert arg == "-" + name; }
    case Positional =>
  }

  lemma NotHelpOrSeparator(arg: string, c: char)
    requires Classify(arg) == Other && ShapeOf(arg) == Short(c)
    ensures c != 'h' && c != '-'
  {
    assert c == 'h' ==> arg == "-h";
    assert c == '-' ==> arg == "--";
  }

  lemma SanitizersAreUnreserved()
    ensures !Reserved(ASAN) && !Reserved(OWNERSHIP)
  {
    ReservedNames(ASAN);
    ReservedNames(OWNERSHIP);
    hide Reserved;
    assert |ASAN| == 4 && |OWNERSHIP| == 18 && "sanitize=ownership"[8] == '=' && OWNERSHIP[8] == '-' &&
      ASAN[0] != "help"[0];
  }

  /** Whatever one token did, the spelling it recorded does again. */
  lemma StepRecorded(cfg: Config, st: State, tokens: seq<string>) returns (emitted: seq<string>)
    requires Sound(cfg) && tokens != [] && Step(cfg, st, tokens).Next?
    ensures Recorded(cfg, st, Step(cfg, st, tokens).st, emitted)
  {
    var arg := tokens[0];
    match Classify(arg)
    case AsanAlias =>
      SanitizersAreUnreserved();
      FlagRecorded(cfg, st, ASAN);
      emitted := if ASAN == FORCE then [] else [LongForm(ASAN)];
    case OwnershipAlias =>
      SanitizersAreUnreserved();
      FlagRecorded(cfg, st, OWNERSHIP);
      emitted := if OWNERSHIP == FORCE then [] else [LongForm(OWNERSHIP)];
    case Other => emitted := OrdinaryRecorded(cfg, st, arg, tokens[1..]);
  }

  lemma OrdinaryRecorded(cfg: Config, st: State, arg: string, rest: seq<string>) returns (emitted: seq<string>)
    requires Sound(cfg) && Classify(arg) == Other && Ordinary(cfg, st, arg, rest).Next?
    ensures Recorded(cfg, st, Ordinary(cfg, st, arg, rest).st, emitted)
  {
    hide Recorded, Sound, Reserved, SetFlag, SetValue;
    match ShapeOf(arg)
    case Long(name) =>
      StandsForUnreserved(cfg, arg, name);
      emitted := ApplyRecorded(cfg, st, name, LongForm(name), rest);
    case Short(c) =>
      StandsForUnreserved(cfg, arg, cfg.Resolve(c));
      emitted := ApplyRecorded(cfg, st, cfg.Resolve(c), arg, rest);
    case Dash =>
      var name := if cfg.IsFlag(arg[1..]) then arg[1..] else cfg.Resolve(arg[1]);
      StandsForUnreserved(cfg, arg, name);
      if cfg.IsFlag(name) {
        FlagRecorded(cfg, st, name);
        emitted := if name == FORCE then [] else [LongForm(name)];
      } else {
        ValueRecorded(cfg, st, name, arg[2..]);
        emitted := [LongForm(name), arg[2..]];
      }
    case Positional =>
      PositionalRecorded(cfg, st, arg);
      emitted := [arg];
  }

  lemma ApplyRecorded(cfg: Config, st: State, name: string, display: string, rest: seq<string>)
    returns (emitted: seq<string>)
    requires name != "" && !Reserved(name) && Apply(cfg, st, name, display, rest).Next?
    ensures Recorded(cfg, st, Apply(cfg, st, name, display, rest).st, emitted)
  {
    hide Recorded, Reserved, SetFlag, SetValue;
    if cfg.IsFlag(name) {
      FlagRecorded(cfg, st, name);
      emitted := if name == FORCE then [] else [LongForm(name)];
    } else {
      ValueRecorded(cfg, st, name, rest[0]);
      emitted := [LongForm(name), rest[0]];
    }
  }

  lemma StepExtendsRecord(cfg: Config, st: State, tokens: seq<string>)
    requires tokens != []
    ensures st.normalized <= Step(cfg, st, tokens).st.normalized
  {
    hide Classify, ShapeOf, LongForm, Values;
    hide Ordinary;
    OrdinaryExtendsRecord(cfg, st, tokens[0], tokens[1..]);
  }

  lemma OrdinaryExtendsRecord(cfg: Config, st: State, arg: string, rest: seq<string>)
    ensures st.normalized <= Ordinary(cfg, st, arg, rest).st.normalized
  {
    hide ShapeOf, LongForm, Values;
  }

  lemma {:induction false} ParseExtendsRecord(cfg: Config, st: State, tokens: seq<string>)
    ensures st.normalized <= Parse(cfg, st, tokens).1.normalized
    decreases |tokens|
  {
    if tokens != [] {
      StepExtendsRecord(cfg, st, tokens);
      hide Step;
      if Step(cfg, st, tokens).Next? { ParseExtendsRecord(cfg, Step(cfg, st, tokens).st, Step(cfg, st, tokens).rest); }
    }
  }

  /** A run from one state and the run over what it recorded, from the same state up to `force`, end the same. */
  lemma {:induction false} RerunIsSame(cfg: Config, st: State, st2: State, tokens: seq<string>, recorded: seq<string>)
    requires Sound(cfg) && Same(st2, st) && Parses(cfg, st, tokens)
    requires Parse(cfg, st, tokens).1.normalized == st.normalized + recorded
    ensures Parse(cfg, st2, recorded).0 == Done && Same(Parse(cfg, st2, recorded).1, Parse(cfg, st, tokens).1)
    decreases |tokens|
  {
    hide Sound, Same, Classify, Ordinary;
    if tokens == [] {
      assert recorded == [];
    } else if Step(cfg, st, tokens).Next? {
      var after, rest := Step(cfg, st, tokens).st, Step(cfg, st, tokens).rest;
      var emitted := StepRecorded(cfg, st, tokens);
      assert Parse(cfg, st, tokens) == Parse(cfg, after, rest);
      ParseExtendsRecord(cfg, after, rest);
      var others := Parse(cfg, after, rest).1.normalized[|after.normalized|..];
      assert st.normalized + recorded == st.normalized + (emitted + others);
      Cancel(st.normalized, recorded, emitted + others);
      assert Replays(cfg, after, emitted, st2, others);
      var after2 :| Parse(cfg, st2, emitted + others) == Parse(cfg, after2, others) && Same(after2, after);
      RerunIsSame(cfg, after, after2, rest, others);
    } else {
      StopsAtSeparator(cfg, st, st2, tokens, recorded);
    }
  }

  lemma Cancel(a: seq<string>, x: seq<string>, y: seq<string>)
    requires a + x == a + y
    ensures x == y
  {
    assert x == (a + x)[|a|..] && y == (a + y)[|a|..];
  }

  lemma StopsAtSeparator(cfg: Config, st: State, st2: State, tokens: seq<string>, recorded: seq<string>)
    requires Same(st2, st) && tokens != [] && Step(cfg, st, tokens).Stop? && Parses(cfg, st, tokens)
    requires Parse(cfg, st, tokens).1.normalized == st.normalized + recorded
    ensures Parse(cfg, st2, recorded).0 == Done && Same(Parse(cfg, st2, recorded).1, Parse(cfg, st, tokens).1)
  {
    hide ShapeOf, LongForm;
    assert Classify(tokens[0]) == Separator;
    assert st.normalized + [tokens[0]] + tokens[1..] == st.normalized + tokens;
    assert recorded == (st.normalized + recorded)[|st.normalized|..] == tokens;
  }

  /** In a sound configuration the recorded spelling reproduces every run that succeeds. */
  lemma SoundReproduces(cfg: Config, defaults: map<string, string>, tokens: seq<string>)
    requires Sound(cfg) && Parses(cfg, Initial(defaults), tokens)
    ensures Reproduces(cfg, defaults, tokens)
  {
    hide Sound, Parse;
    var st := Initial(defaults);
    var r := Parse(cfg, st, tokens).1;
    assert r.normalized == st.normalized + r.normalized;
    RerunIsSame(cfg, st, st, tokens, r.normalized);
  }

  // And in any other configuration some run is not reproduced

  lemma {:induction false} LongerThanAll(keys: set<string>) returns (n: nat)
    ensures n > 40 && forall k | k in keys :: |k| < n
    decreases |keys|
  {
    if keys == {} {
      n := 41;
    } else {
      var k :| k in keys;
      var m := LongerThanAll(keys - {k});
      n := if m > |k| then m else |k| + 1;
      assert forall x | x in keys :: x == k || x in keys - {k};
    }
  }

  /** A reserved name at the front of the record is not read back. */
  lemma ReservedIsNotReproduced(cfg: Config, defaults: map<string, string>, tokens: seq<string>, name: string,
                                more: seq<string>)
    requires Reserved(name) && name != "" && Parses(cfg, Initial(defaults), tokens)
    requires Parse(cfg, Initial(defaults), tokens).1.normalized == [LongForm(name)] + more
    ensures !Reproduces(cfg, defaults, tokens)
  {
    var st, again := Initial(defaults), [LongForm(name)] + more;
    assert again[1..] == more && |LongForm(name)| > 2;
    SanitizersAreUnreserved();
    assert Classify(LongForm(name)) != Separator;
    hide LongForm, ShapeOf;
    if Classify(again[0]) == AsanAlias {
      ParseExtendsRecord(cfg, SetFlag(st, ASAN), more);
      DifferentLongForms(ASAN, name);
    } else if Classify(again[0]) == OwnershipAlias {
      ParseExtendsRecord(cfg, SetFlag(st, OWNERSHIP), more);
      DifferentLongForms(OWNERSHIP, name);
    }
  }

  lemma DifferentLongForms(a: string, b: string)
    requires a != b
    ensures LongForm(a) != LongForm(b)
  {
    assert LongForm(a)[2..] == a && LongForm(b)[2..] == b;
  }

  /** A missing sanitizer flag: its alias is recorded under a name that does not parse. */
  lemma MissingSanitizerFails(cfg: Config, defaults: map<string, string>, alias: string, name: string)
    requires !cfg.IsFlag(name) && name != FORCE && name != "" && !Reserved(name)
    requires (name == ASAN && Classify(alias) == AsanAlias) || (name == OWNERSHIP && Classify(alias) == OwnershipAlias)
    ensures Parses(cfg, Initial(defaults), [alias]) && !Reproduces(cfg, defaults, [alias])
  {
    hide LongForm, Classify;
    var st := Initial(defaults);
    LongFormShape(name);
    assert Step(cfg, st, [alias]) == Next(SetFlag(st, name), []);
    assert Parse(cfg, st, [alias]) == (Done, SetFlag(st, name));
    assert st.normalized + [LongForm(name)] == [LongForm(name)];
    assert Step(cfg, st, [LongForm(name)]).Stop? && Step(cfg, st, [LongForm(name)]).outcome != Done;
  }

  /** A reachable reserved name: a run that records it. */
  lemma ReachableFails(cfg: Config, defaults: map<string, string>, name: string) returns (tokens: seq<string>)
    requires Reachable(cfg, name)
    ensures Parses(cfg, Initial(defaults), tokens) && !Reproduces(cfg, defaults, tokens)
  {
    var st := Initial(defaults);
    var more;
    if cfg.IsFlag(name) {
      tokens := FlagByDash(cfg, st, name);
      more := [];
    } else {
      var c :| c in cfg.shorts && cfg.shorts[c] == name && c != '-' && (c != 'h' || !cfg.IsFlag(name));
      var value;
      tokens, value := ValueByDash(cfg, st, name, c);
      more := [value];
    }
    ReservedIsNotReproduced(cfg, defaults, tokens, name, more);
  }

  lemma ReservedIsNotForce()
    ensures !Reserved(FORCE)
  {
    ReservedNames(FORCE);
    hide Reserved;
    assert |FORCE| == 5;
  }

  lemma FlagByDash(cfg: Config, st: State, name: string) returns (tokens: seq<string>)
    requires Reachable(cfg, name) && cfg.IsFlag(name) && st.normalized == [] && !st.showVersion
    ensures Parses(cfg, st, tokens) && Parse(cfg, st, tokens).1.normalized == [LongForm(name)]
  {
    ReservedIsNotForce();
    var arg;
    if |name| >= 2 && name[0] != '-' && Classify("-" + name) == Other {
      arg := "-" + name;
      assert arg[1..] == name && ShapeOf(arg) == Dash;
    } else {
      var c :| c in cfg.shorts && cfg.shorts[c] == name && c != '-' && (c != 'h' || !cfg.IsFlag(name));
      arg := ['-', c];
      ShortIsOther(c);
    }
    hide Classify, LongForm, ShapeOf;
    tokens := [arg];
    assert Step(cfg, st, tokens) == Next(SetFlag(st, name), []);
    assert Parse(cfg, st, tokens) == (Done, SetFlag(st, name));
    assert st.normalized + [LongForm(name)] == [LongForm(name)];
  }

  lemma ShortIsOther(c: char)
    requires c != '-' && c != 'h'
    ensures Classify(['-', c]) == Other && ShapeOf(['-', c]) == Short(c)
  {
    assert ['-', c][1] == c && "--"[1] == '-' && "-h"[1] == 'h';
  }

  lemma ValueByDash(cfg: Config, st: State, name: string, c: char) returns (tokens: seq<string>, value: string)
    requires Reachable(cfg, name) && cfg.TakesValue(name) && c in cfg.shorts && cfg.shorts[c] == name && c != '-'
    requires st.normalized == [] && !st.showVersion
    ensures Parses(cfg, st, tokens) && Parse(cfg, st, tokens).1.normalized == [LongForm(name)] + [value]
  {
    var n := LongerThanAll(cfg.kinds.Keys);
    value := seq(n, _ => 'x');
    var arg := ['-', c] + value;
    assert Classify(arg) == Other && ShapeOf(arg) == Dash;
    assert arg[2..] == value && |arg[1..]| == n + 1;
    assert arg[1..] !in cfg.kinds;
    hide Classify, LongForm, ShapeOf;
    tokens := [arg];
    assert Step(cfg, st, tokens) == Next(SetValue(cfg, st, name, value), []);
    assert Parse(cfg, st, tokens) == (Done, SetValue(cfg, st, name, value));
    assert st.normalized + [LongForm(name), value] == [LongForm(name)] + [value];
  }

  /** The recorded spelling reproduces every successful run exactly in the sound configurations. */
  lemma ReproducesIffSound(cfg: Config, defaults: map<string, string>)
    ensures Sound(cfg) <==> forall tokens | Parses(cfg, Initial(defaults), tokens) :: Reproduces(cfg, defaults, tokens)
  {
    hide Parses, Reproduces, Reachable;
    if Sound(cfg) {
      forall tokens | Parses(cfg, Initial(defaults), tokens)
        ensures Reproduces(cfg, defaults, tokens)
      {
        SoundReproduces(cfg, defaults, tokens);
      }
    } else {
      SanitizersAreUnreserved();
      ReservedIsNotForce();
      if !cfg.IsFlag(ASAN) {
        MissingSanitizerFails(cfg, defaults, "-fsanitize=address", ASAN);
      } else if !cfg.IsFlag(OWNERSHIP) {
        MissingSanitizerFails(cfg, defaults, "-fsanitize=ownership", OWNERSHIP);
      } else {
        var name :| name in cfg.kinds && Reachable(cfg, name);
        var tokens := ReachableFails(cfg, defaults, name);
      }
    }
  }

  // ---------------------------------------------------------------------------------------------
  // Response files
  // ---------------------------------------------------------------------------------------------

  predicate Blank(c: char) {
    c == ' ' || c == '\t' || c == '\r' || c == '\n'
  }

  /** The tokens of a text, with `token` read so far. */
  function TokensFrom(text: string, token: string, inToken: bool, inQuotes: bool): seq<string>
    decreases |text|
  {
    if text == "" then (if inToken then [token] else [])
    else if text[0] == '"' then TokensFrom(text[1..], token, true, !inQuotes)
    else if !inQuotes && Blank(text[0])
    then (if inToken then [token] else []) + TokensFrom(text[1..], "", false, inQuotes)
    else TokensFrom(text[1..], token + [text[0]], true, inQuotes)
  }

  function ResponseTokens(text: string): seq<string> {
    TokensFrom(text, "", false, false)
  }

  /** Arguments in quotes, one a line. */
  function Quoted(args: seq<string>): string {
    if args == [] then "" else "\"" + (args[0] + ("\"" + ("\n" + Quoted(args[1..]))))
  }

  lemma {:induction false} ReadsQuoted(arg: string, more: string, token: string)
    requires '"' !in arg
    ensures TokensFrom(arg + ("\"" + more), token, true, true) == TokensFrom(more, token + arg, true, false)
    decreases |arg|
  {
    if arg == "" {
      assert arg + ("\"" + more) == "\"" + more && ("\"" + more)[1..] == more && token + arg == token;
    } else {
      assert arg[0] in arg && (arg + ("\"" + more))[1..] == arg[1..] + ("\"" + more);
      ReadsQuoted(arg[1..], more, token + [arg[0]]);
      assert token + [arg[0]] + arg[1..] == token + arg;
    }
  }

  /** Any arguments free of double quotes, blanks and empty ones included, survive a response file. */
  lemma {:induction false} ResponseFileRoundTrip(args: seq<string>)
    requires forall a | a in args :: '"' !in a
    ensures ResponseTokens(Quoted(args)) == args
  {
    if args != [] {
      var arg, rest := args[0], Quoted(args[1..]);
      assert arg in args && forall a | a in args[1..] :: a in args;
      ResponseFileRoundTrip(args[1..]);
      var text := arg + ("\"" + ("\n" + rest));
      assert Quoted(args)[1..] == text;
      ReadsQuoted(arg, "\n" + rest, "");
      assert "" + arg == arg && ("\n" + rest)[1..] == rest;
      assert args == [arg] + args[1..];
    }
  }

  // Words without quotes

  const BLANKS := " \t\r\n"

  ghost predicate AllBlank(s: string) {
    forall c | c in s :: c in BLANKS
  }

  ghost predicate Word(s: string) {
    s != "" && forall c | c in s :: c !in BLANKS && c != '"'
  }

  /** The words in order, with blanks between them and any before and after. */
  ghost predicate SpacedOut(text: string, words: seq<string>)
    decreases |words|
  {
    if words == [] then AllBlank(text)
    else exists gap, rest ::
           text == gap + words[0] + rest && AllBlank(gap) && Word(words[0])
           && (rest != "" ==> rest[0] in BLANKS) && SpacedOut(rest, words[1..])
  }

  lemma {:induction false} PassesGap(gap: string, more: string)
    requires AllBlank(gap)
    ensures ResponseTokens(gap + more) == ResponseTokens(more)
    decreases |gap|
  {
    if gap == "" {
      assert gap + more == more;
    } else {
      assert gap[0] in gap && (gap + more)[1..] == gap[1..] + more;
      assert forall c | c in gap[1..] :: c in gap;
      PassesGap(gap[1..], more);
    }
  }

  lemma {:induction false} ReadsWord(word: string, more: string, token: string, inToken: bool)
    requires forall c | c in word :: c !in BLANKS && c != '"'
    requires inToken || (word != "" && token == "")
    ensures TokensFrom(word + more, token, inToken, false) == TokensFrom(more, token + word, true, false)
    decreases |word|
  {
    if word == "" {
      assert word + more == more && token + word == token;
    } else {
      assert word[0] in word && (word + more)[1..] == word[1..] + more;
      assert forall c | c in word[1..] :: c in word;
      ReadsWord(word[1..], more, token + [word[0]], true);
      assert token + [word[0]] + word[1..] == token + word;
    }
  }

  lemma NoTokens()
    ensures ResponseTokens("") == []
  {}

  lemma WordThenRest(word: string, rest: string)
    requires Word(word) && (rest != "" ==> rest[0] in BLANKS)
    ensures ResponseTokens(word + rest) == [word] + ResponseTokens(rest)
  {
    ReadsWord(word, rest, "", false);
    assert "" + word == word;
  }

  /** Words without quotes come back one by one, whatever blanks are between them. */
  lemma {:induction false} SpacedWordsSplit(text: string, words: seq<string>)
    requires SpacedOut(text, words)
    ensures ResponseTokens(text) == words
    decreases |words|
  {
    hide AllBlank, Word;
    if words == [] {
      PassesGap(text, "");
      NoTokens();
      assert text + "" == text;
    } else {
      var gap, rest :| text == gap + words[0] + rest && AllBlank(gap) && Word(words[0])
                       && (rest != "" ==> rest[0] in BLANKS) && SpacedOut(rest, words[1..]);
      SpacedWordsSplit(rest, words[1..]);
      assert text == gap + (words[0] + rest);
      PassesGap(gap, words[0] + rest);
      WordThenRest(words[0], rest);
      assert words == [words[0]] + words[1..];
    }
  }

  /** No token holds a double quote, so those arguments are all a response file can give. */
  lemma {:induction false} TokensHoldNoQuote(text: string, token: string, inToken: bool, inQuotes: bool)
    requires '"' !in token
    ensures forall t | t in TokensFrom(text, token, inToken, inQuotes) :: '"' !in t
    decreases |text|
  {
    if text != "" {
      if text[0] == '"' {
        TokensHoldNoQuote(text[1..], token, true, !inQuotes);
      } else if !inQuotes && Blank(text[0]) {
        TokensHoldNoQuote(text[1..], "", false, inQuotes);
      } else {
        TokensHoldNoQuote(text[1..], token + [text[0]], true, inQuotes);
      }
    }
  }

  predicate NamesFile(arg: string) {
    |arg| > 1 && arg[0] == '@'
  }

  datatype Expansion = Unreadable(path: string) | Expanded(tokens: seq<string>)

  /** Before a bare "--", each @file is replaced by the file's tokens. */
  function Expand(files: map<string, string>, args: seq<string>): Expansion {
    if args == [] then Expanded([])
    else if args[0] == "--" then Expanded(args)
    else if NamesFile(args[0]) && args[0][1..] !in files then Unreadable(args[0][1..])
    else
      var rest := Expand(files, args[1..]);
      if rest.Unreadable? then rest
      else Expanded((if NamesFile(args[0]) then ResponseTokens(files[args[0][1..]]) else [args[0]]) + rest.tokens)
  }

  /** What is left of a text that is read again as a C string: up to its first NUL. */
  function CString(s: string): (r: string)
    ensures r <= s && '\0' !in r
  {
    if s == "" || s[0] == '\0' then "" else [s[0]] + CString(s[1..])
  }

  function CStrings(tokens: seq<string>): (r: seq<string>)
    ensures |r| == |tokens| && forall i | 0 <= i < |r| :: r[i] == CString(tokens[i])
  {
    seq(|tokens|, i requires 0 <= i < |tokens| => CString(tokens[i]))
  }

  lemma {:induction false} CStringKeepsIff(s: string)
    ensures CString(s) == s <==> '\0' !in s
  {
    if s != "" {
      CStringKeepsIff(s[1..]);
      assert s == [s[0]] + s[1..];
    }
  }

  /** Arguments without double quotes reach the parser from a response file whole iff none holds a NUL. */
  lemma ResponseFileDelivers(path: string, args: seq<string>)
    requires path != "" && forall a | a in args :: '"' !in a
    ensures Expand(map[path := Quoted(args)], ["@" + path]) == Expanded(args)
    ensures CStrings(args) == args <==> forall a | a in args :: '\0' !in a
  {
    var files, arg := map[path := Quoted(args)], "@" + path;
    var none: seq<string> := [];
    assert arg[0] == '@' && arg[1..] == path && [arg][1..] == none;
    ResponseFileRoundTrip(args);
    assert Expand(files, none) == Expanded(none) && args + none == args;
    forall i | 0 <= i < |args|
      ensures CString(args[i]) == args[i] <==> '\0' !in args[i]
    {
      CStringKeepsIff(args[i]);
    }
  }

  /** Tokens that name no file stand for themselves; a file's own tokens are not expanded again. */
  lemma {:induction false} PlainArgumentsExpandToThemselves(files: map<string, string>, args: seq<string>)
    requires forall a | a in args :: !NamesFile(a)
    ensures Expand(files, args) == Expanded(args)
  {
    if args != [] && args[0] != "--" {
      assert args[0] in args && forall a | a in args[1..] :: a in args;
      PlainArgumentsExpandToThemselves(files, args[1..]);
      assert args == [args[0]] + args[1..];
    }
  }

  // ---------------------------------------------------------------------------------------------
  // The parser
  // ---------------------------------------------------------------------------------------------

  class ArgParser {
    var nameKind: map<string, Kind>
    var shortToName: map<char, string>
    var flagValues: map<string, bool>
    var optionValues: map<string, string>
    var multiOptionValues: map<string, seq<string>>
    var positionalValues: seq<string>
    var passthrough: seq<string>
    var normalizedArguments: seq<string>
    var showVersion: bool

    constructor ()
      ensures Registered() == Config(map[], map[]) && Contents() == Initial(map[])
    {
      nameKind, shortToName, flagValues, optionValues, multiOptionValues := map[], map[], map[], map[], map[];
      positionalValues, passthrough, normalizedArguments, showVersion := [], [], [], false;
    }

    ghost function Registered(): Config
      reads this
    {
      Config(nameKind, shortToName)
    }

    ghost function Contents(): State
      reads this
    {
      State(flagValues, optionValues, multiOptionValues, positionalValues, passthrough, normalizedArguments,
            showVersion)
    }

    method AddFlag(name: string, shortName: Option<char>)
      modifies this`nameKind, this`shortToName
      ensures Registered() == old(Registered()).(kinds := old(nameKind)[name := Flag], shorts := shortToName)
      ensures shortToName == if shortName.Some? then old(shortToName)[shortName.value := name] else old(shortToName)
    {
      nameKind := nameKind[name := Flag];
      if shortName.Some? { shortToName := shortToName[shortName.value := name]; }
    }

    method AddOption(name: string, shortName: Option<char>, defaultValue: string)
      modifies this`nameKind, this`shortToName, this`optionValues
      ensures nameKind == old(nameKind)[name := ValueOption]
      ensures shortToName == if shortName.Some? then old(shortToName)[shortName.value := name] else old(shortToName)
      ensures optionValues == if defaultValue != "" then old(optionValues)[name := defaultValue] else old(optionValues)
    {
      nameKind := nameKind[name := ValueOption];
      if shortName.Some? { shortToName := shortToName[shortName.value := name]; }
      if defaultValue != "" { optionValues := optionValues[name := defaultValue]; }
    }

    method AddMultiOption(name: string, shortName: Option<char>)
      modifies this`nameKind, this`shortToName
      ensures nameKind == old(nameKind)[name := MultiOption]
      ensures shortToName == if shortName.Some? then old(shortToName)[shortName.value := name] else old(shortToName)
    {
      nameKind := nameKind[name := MultiOption];
      if shortName.Some? { shortToName := shortToName[shortName.value := name]; }
    }

    /** Expands response files, then parses; in between every token passes through a C string. */
    method ParseArguments(files: map<string, string>, args: seq<string>) returns (outcome: Outcome)
      modifies this`flagValues, this`optionValues, this`multiOptionValues, this`positionalValues, this`passthrough,
               this`normalizedArguments, this`showVersion
      ensures match Expand(files, args)
        case Unreadable(path) => outcome == CannotRead(path) && Contents() == old(Contents())
        case Expanded(tokens) => (outcome, Contents()) == Parse(Registered(), old(Contents()), CStrings(tokens))
    {
      hide Parse, Expand, CString;
      var expansion := ExpandResponseFiles(files, args);
      if expansion.Unreadable? { return CannotRead(expansion.path); }
      var expandedArgv: seq<string> := [];
      for i := 0 to |expansion.tokens|
        invariant |expandedArgv| == i && forall k | 0 <= k < i :: expandedArgv[k] == CString(expansion.tokens[k])
      {
        expandedArgv := expandedArgv + [CString(expansion.tokens[i])];
      }
      assert expandedArgv == CStrings(expansion.tokens);
      outcome := ParseExpanded(expandedArgv);
    }

    static method ExpandResponseFiles(files: map<string, string>, args: seq<string>) returns (expansion: Expansion)
      ensures expansion == Expand(files, args)
    {
      hide Expand, ResponseTokens;
      var expanded: seq<string> := [];
      var i := 0;
      assert args[0..] == args;
      AfterTokens([], Expand(files, args));
      while i < |args| && args[i] != "--"
        invariant 0 <= i <= |args|
        invariant Expand(files, args) == After(expanded, Expand(files, args[i..]))
      {
        ExpandNext(files, args, i);
        if NamesFile(args[i]) {
          if args[i][1..] !in files { return Unreadable(args[i][1..]); }
          var tokens := ReadResponseFile(files[args[i][1..]]);
          AfterBoth(expanded, tokens, Expand(files, args[i + 1..]));
          expanded := expanded + tokens;
        } else {
          AfterBoth(expanded, [args[i]], Expand(files, args[i + 1..]));
          expanded := expanded + [args[i]];
        }
        i := i + 1;
      }
      ExpandEnds(files, args[i..]);
      expansion := Expanded(expanded + args[i..]);
    }

    /** The character loop over a response file. */
    static method ReadResponseFile(text: string) returns (out: seq<string>)
      ensures out == ResponseTokens(text)
    {
      out := [];
      var token, inToken, inQuotes := "", false, false;
      for i := 0 to |text|
        invariant ResponseTokens(text) == out + TokensFrom(text[i..], token, inToken, inQuotes)
      {
        var c := text[i];
        assert text[i..][0] == c && text[i..][1..] == text[i + 1..];
        if c == '"' {
          inQuotes := !inQuotes;
          inToken := true;
        } else if !inQuotes && Blank(c) {
          if inToken { out := out + [token]; }
          token := "";
          inToken := false;
        } else {
          token := token + [c];
          inToken := true;
        }
      }
      if inToken { out := out + [token]; }
    }

    method ParseExpanded(tokens: seq<string>) returns (outcome: Outcome)
      modifies this`flagValues, this`optionValues, this`multiOptionValues, this`positionalValues, this`passthrough,
               this`normalizedArguments, this`showVersion
      ensures (outcome, Contents()) == Parse(Registered(), old(Contents()), tokens)
    {
      hide Ordinary, SetFlag, Classify;
      var i := 0;
      assert tokens[0..] == tokens;
      while i < |tokens|
        invariant 0 <= i <= |tokens|
        invariant Parse(Registered(), Contents(), tokens[i..]) == Parse(Registered(), old(Contents()), tokens)
      {
        ghost var rest := tokens[i..][1..];
        assert rest == tokens[i + 1..];
        match Classify(tokens[i])
        case Separator =>
          passthrough := passthrough + tokens[i + 1..];
          normalizedArguments := normalizedArguments + [tokens[i]] + tokens[i + 1..];
          return Done;
        case AsanAlias =>
          RecordFlag(ASAN);
          i := i + 1;
        case OwnershipAlias =>
          RecordFlag(OWNERSHIP);
          i := i + 1;
        case Help => return Usage;
        case Version =>
          showVersion := true;
          return Done;
        case Other =>
          var stop;
          stop, i := ParseOne(tokens, i);
          if stop != Done { return stop; }
      }
      outcome := Done;
    }

    method RecordFlag(name: string)
      modifies this`flagValues, this`normalizedArguments
      ensures Contents() == SetFlag(old(Contents()), name)
    {
      flagValues := flagValues[name := true];
      if name != FORCE { normalizedArguments := normalizedArguments + [LongForm(name)]; }
    }

    method RecordValue(name: string, value: string)
      requires Registered().TakesValue(name)
      modifies this`optionValues, this`multiOptionValues, this`normalizedArguments
      ensures Contents() == SetValue(Registered(), old(Contents()), name, value)
    {
      if nameKind[name] == ValueOption {
        optionValues := optionValues[name := value];
      } else {
        multiOptionValues :=
          multiOptionValues[name := (if name in multiOptionValues then multiOptionValues[name] else []) + [value]];
      }
      normalizedArguments := normalizedArguments + [LongForm(name)];
      normalizedArguments := normalizedArguments + [value];
      assert normalizedArguments == old(normalizedArguments) + [LongForm(name), value];
    }

    /** A resolved long name: sets a flag, or takes the next token as a value. */
    method ApplyArg(tokens: seq<string>, i: nat, name: string, display: string) returns (outcome: Outcome, next: nat)
      requires i < |tokens|
      modifies this`flagValues, this`optionValues, this`multiOptionValues, this`normalizedArguments
      ensures i < next <= |tokens|
      ensures (if outcome == Done then Next(Contents(), tokens[next..]) else Stop(outcome, Contents()))
           == Apply(Registered(), old(Contents()), name, display, tokens[i + 1..])
    {
      hide SetFlag, SetValue;
      next := i + 1;
      outcome := Done;
      if name in nameKind && nameKind[name] == Flag {
        RecordFlag(name);
      } else if name in nameKind {
        if i + 1 >= |tokens| { return RequiresValue(display), next; }
        RecordValue(name, tokens[i + 1]);
        next := i + 2;
      } else {
        outcome := UnknownArgument(display);
      }
    }

    method ParseOne(tokens: seq<string>, i: nat) returns (outcome: Outcome, next: nat)
      requires i < |tokens|
      modifies this`flagValues, this`optionValues, this`multiOptionValues, this`positionalValues,
        this`normalizedArguments
      ensures i < next <= |tokens|
      ensures (if outcome == Done then Next(Contents(), tokens[next..]) else Stop(outcome, Contents()))
           == Ordinary(Registered(), old(Contents()), tokens[i], tokens[i + 1..])
    {
      hide SetFlag, SetValue, Apply, LongForm;
      var arg := tokens[i];
      outcome, next := Done, i + 1;
      if |arg| > 2 && arg[0] == '-' && arg[1] == '-' {
        outcome, next := ApplyArg(tokens, i, arg[2..], LongForm(arg[2..]));
      } else if |arg| >= 2 && arg[0] == '-' {
        var attached := if arg[1] in shortToName then shortToName[arg[1]] else "";
        if |arg| == 2 {
          if attached == "" { return UnknownArgument(arg), next; }
          outcome, next := ApplyArg(tokens, i, attached, arg);
        } else if arg[1..] in nameKind && nameKind[arg[1..]] == Flag {
          RecordFlag(arg[1..]);
        } else if attached != "" && attached in nameKind && nameKind[attached] != Flag {
          RecordValue(attached, arg[2..]);
        } else {
          outcome := UnknownArgument(arg);
        }
      } else {
        positionalValues := positionalValues + [arg];
        normalizedArguments := normalizedArguments + [arg];
      }
    }
  }

  /** Tokens already expanded, before the rest's. */
  function After(tokens: seq<string>, rest: Expansion): Expansion {
    if rest.Unreadable? then rest else Expanded(tokens + rest.tokens)
  }

  lemma AfterTokens(tokens: seq<string>, rest: Expansion)
    requires tokens == []
    ensures After(tokens, rest) == rest
  {
    if rest.Expanded? { assert tokens + rest.tokens == rest.tokens; }
  }

  lemma AfterBoth(a: seq<string>, b: seq<string>, rest: Expansion)
    ensures After(a, After(b, rest)) == After(a + b, rest)
  {
    if rest.Expanded? { assert a + (b + rest.tokens) == a + b + rest.tokens; }
  }

  lemma ExpandEnds(files: map<string, string>, args: seq<string>)
    requires args == [] || args[0] == "--"
    ensures Expand(files, args) == Expanded(args)
  {}

  lemma ExpandNext(files: map<string, string>, args: seq<string>, i: nat)
    requires i < |args| && args[i] != "--"
    ensures Expand(files, args[i..]) ==
      if NamesFile(args[i]) && args[i][1..] !in files then Unreadable(args[i][1..])
      else After(if NamesFile(args[i]) then ResponseTokens(files[args[i][1..]]) else [args[i]],
                 Expand(files, args[i + 1..]))
  {
    assert args[i..][1..] == args[i + 1..];
  }
}

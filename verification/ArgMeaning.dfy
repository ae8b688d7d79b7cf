/**
 What a command line means, item by item over its tokens, and that `ArgParser::parse` reads exactly that:
 values, record and errors.
 */
module ArgMeaning {
  import opened Wrappers
  import opened ArgNormalizer

  /** One argument as it is read: a flag given, a value given, a positional, or all that follows a bare "--". */
  datatype Item =
    | GivesFlag(name: string)
    | GivesValue(name: string, value: string)
    | GivesPositional(arg: string)
    | PassesOn(args: seq<string>)

  // ---------------------------------------------------------------------------------------------
  // What tokens stand for
  // ---------------------------------------------------------------------------------------------

  predicate SpelledAsan(arg: string) {
    arg == "-fsanitize=address" || arg == "--fsanitize=address"
  }

  predicate SpelledOwnership(arg: string) {
    arg == "-fsanitize=ownership" || arg == "--fsanitize=ownership" || arg == "--sanitize=ownership"
  }

  predicate AsksHelp(arg: string) {
    arg == "--help" || arg == "-h"
  }

  /** Spellings that mean the same whatever is registered. */
  predicate Special(arg: string) {
    arg == "--" || SpelledAsan(arg) || SpelledOwnership(arg) || AsksHelp(arg) || arg == "--version"
  }

  /** A token that is a registered name after two dashes, or a registered short name after one. */
  ghost predicate Names(cfg: Config, arg: string, name: string) {
    && !Special(arg) && name in cfg.kinds && name != ""
    && (arg == "--" + name || exists c :: c in cfg.shorts && cfg.shorts[c] == name && arg == ['-', c])
  }

  /** A flag may also follow a single dash. */
  ghost predicate NamesFlag(cfg: Config, arg: string, name: string) {
    || (SpelledAsan(arg) && name == "asan") || (SpelledOwnership(arg) && name == "sanitize-ownership")
    || (Names(cfg, arg, name) && cfg.kinds[name] == Flag)
    || (&& !Special(arg) && name in cfg.kinds && cfg.kinds[name] == Flag
        && |name| >= 2 && name[0] != '-' && arg == "-" + name)
  }

  ghost predicate NamesOption(cfg: Config, arg: string, name: string) {
    Names(cfg, arg, name) && cfg.kinds[name] != Flag
  }

  /** A value right after a short name, unless the token is a flag after a single dash. */
  ghost predicate Attaches(cfg: Config, arg: string, name: string, value: string) {
    && !Special(arg) && name in cfg.kinds && cfg.kinds[name] != Flag && name != "" && value != ""
    && (exists c :: c in cfg.shorts && cfg.shorts[c] == name && c != '-' && arg == ['-', c] + value)
    && !(arg[1..] in cfg.kinds && cfg.kinds[arg[1..]] == Flag)
  }

  predicate NoDash(arg: string) {
    arg == "" || arg[0] != '-' || arg == "-"
  }

  /** These tokens stand for this item. */
  ghost predicate Means(cfg: Config, piece: seq<string>, item: Item) {
    match item
    case GivesFlag(name) => |piece| == 1 && NamesFlag(cfg, piece[0], name)
    case GivesValue(name, value) =>
      (|piece| == 2 && NamesOption(cfg, piece[0], name) && value == piece[1]) ||
      (|piece| == 1 && Attaches(cfg, piece[0], name, value))
    case GivesPositional(arg) => piece == [arg] && NoDash(arg)
    case PassesOn(args) => piece == ["--"] + args
  }

  /** The tokens up to `upTo` are the items' spellings, one after the other. */
  ghost predicate Reading(cfg: Config, tokens: seq<string>, items: seq<Item>, upTo: nat)
    decreases |items|
  {
    if items == [] then upTo == 0
    else exists n: nat | 0 < n <= |tokens| && n <= upTo ::
           FirstItem(cfg, tokens, items[0], n) && Reading(cfg, tokens[n..], items[1..], upTo - n)
  }

  /** The tokens start with this item; what a "--" passes on are all the rest. */
  ghost predicate FirstItem(cfg: Config, tokens: seq<string>, item: Item, n: nat) {
    0 < n <= |tokens| && Means(cfg, tokens[..n], item) && (item.PassesOn? ==> n == |tokens|)
  }

  /** Where reading ends: at the end, at a request for help or the version, or at a token that is wrong. */
  ghost predicate Ends(cfg: Config, rest: seq<string>, outcome: Outcome, version: bool) {
    || (rest == [] && outcome == Done && !version)
    || (rest != [] && AsksHelp(rest[0]) && outcome == Usage && !version)
    || (rest != [] && rest[0] == "--version" && outcome == Done && version)
    || (&& |rest| == 1 && (exists name :: NamesOption(cfg, rest[0], name))
        && outcome == RequiresValue(rest[0]) && !version)
    || (rest != [] && MeansNothing(cfg, rest[0]) && outcome == UnknownArgument(rest[0]) && !version)
  }

  ghost predicate MeansNothing(cfg: Config, arg: string) {
    && !Special(arg) && !NoDash(arg)
    && (forall name :: !NamesFlag(cfg, arg, name) && !NamesOption(cfg, arg, name))
    && (forall name, value :: !Attaches(cfg, arg, name, value))
  }

  // ---------------------------------------------------------------------------------------------
  // What items do
  // ---------------------------------------------------------------------------------------------

  /** The values given for a name, in order. */
  function ValuesGiven(items: seq<Item>, name: string): seq<string> {
    if items == [] then []
    else
      var first := if items[0].GivesValue? && items[0].name == name then [items[0].value] else [];
      first + ValuesGiven(items[1..], name)
  }

  function PositionalsGiven(items: seq<Item>): seq<string> {
    if items == [] then []
    else (if items[0].GivesPositional? then [items[0].arg] else []) + PositionalsGiven(items[1..])
  }

  function PassedOn(items: seq<Item>): seq<string> {
    if items == [] then [] else (if items[0].PassesOn? then items[0].args else []) + PassedOn(items[1..])
  }

  /** How an item is recorded: by its long name, and `force` not at all. */
  function RecordOf(item: Item): seq<string> {
    match item
    case GivesFlag(name) => if name == "force" then [] else ["--" + name]
    case GivesValue(name, value) => ["--" + name, value]
    case GivesPositional(arg) => [arg]
    case PassesOn(args) => ["--"] + args
  }

  function RecordsOf(items: seq<Item>): seq<string> {
    if items == [] then [] else RecordOf(items[0]) + RecordsOf(items[1..])
  }

  ghost predicate IsSet(flags: map<string, bool>, name: string) {
    name in flags && flags[name]
  }

  /** A flag is set iff it was or is given. */
  ghost predicate FlagsAre(a: State, items: seq<Item>, b: State) {
    forall name :: IsSet(b.flags, name) <==> IsSet(a.flags, name) || GivesFlag(name) in items
  }

  ghost predicate SameAt<V>(a: map<string, V>, b: map<string, V>, name: string) {
    (name in a <==> name in b) && (name in a ==> a[name] == b[name])
  }

  /** An option has its last value, and a multi-option all of its values. */
  ghost predicate ValueIs(cfg: Config, a: State, given: seq<string>, b: State, name: string) {
    if name !in cfg.kinds || cfg.kinds[name] == Flag || given == [] then
      SameAt(a.options, b.options, name) && SameAt(a.multi, b.multi, name)
    else if cfg.kinds[name] == ValueOption then
      name in b.options && b.options[name] == given[|given| - 1] && SameAt(a.multi, b.multi, name)
    else
      SameAt(a.options, b.options, name) &&
      name in b.multi && b.multi[name] == (if name in a.multi then a.multi[name] else []) + given
  }

  ghost predicate ValuesAre(cfg: Config, a: State, items: seq<Item>, b: State) {
    forall name :: ValueIs(cfg, a, ValuesGiven(items, name), b, name)
  }

  ghost predicate ListsAre(a: State, items: seq<Item>, b: State) {
    && b.positionals == a.positionals + PositionalsGiven(items)
    && b.passthrough == a.passthrough + PassedOn(items)
    && b.normalized == a.normalized + RecordsOf(items)
  }

  ghost predicate Effects(cfg: Config, a: State, items: seq<Item>, b: State) {
    FlagsAre(a, items, b) && ValuesAre(cfg, a, items, b) && ListsAre(a, items, b)
  }

  lemma GatherAcross(item: Item, items: seq<Item>)
    ensures PositionalsGiven([item] + items) == PositionalsGiven([item]) + PositionalsGiven(items)
    ensures PassedOn([item] + items) == PassedOn([item]) + PassedOn(items)
    ensures RecordsOf([item] + items) == RecordsOf([item]) + RecordsOf(items)
  {
    hide RecordOf;
    assert ([item] + items)[1..] == items && [item][1..] == [];
    OneItem(item);
  }

  lemma Joined(a: seq<string>, x: seq<string>, y: seq<string>)
    ensures a + x + y == a + (x + y)
  {}

  lemma ListsStep(a: State, item: Item, b: State, items: seq<Item>, c: State)
    requires ListsAre(a, [item], b) && ListsAre(b, items, c)
    ensures ListsAre(a, [item] + items, c)
  {
    hide PositionalsGiven, PassedOn, RecordsOf;
    GatherAcross(item, items);
    Joined(a.positionals, PositionalsGiven([item]), PositionalsGiven(items));
    Joined(a.passthrough, PassedOn([item]), PassedOn(items));
    Joined(a.normalized, RecordsOf([item]), RecordsOf(items));
  }

  lemma ValueStep(cfg: Config, a: State, first: seq<string>, b: State, others: seq<string>, c: State, name: string)
    requires ValueIs(cfg, a, first, b, name) && ValueIs(cfg, b, others, c, name)
    ensures ValueIs(cfg, a, first + others, c, name)
  {
    if others == [] {
      assert first + others == first;
    } else {
      assert (first + others)[|first + others| - 1] == others[|others| - 1];
      if name in cfg.kinds && cfg.kinds[name] == MultiOption {
        var before := if name in a.multi then a.multi[name] else [];
        assert before + (first + others) == before + first + others;
        if first == [] { assert first + others == others; }
      }
    }
  }

  lemma GivenAcross(item: Item, items: seq<Item>, name: string)
    ensures ValuesGiven([item] + items, name) == ValuesGiven([item], name) + ValuesGiven(items, name)
  {
    assert ([item] + items)[1..] == items && [item][1..] == [];
  }

  /** The effects of one item and then of the others are those of all. */
  lemma EffectsStep(cfg: Config, a: State, item: Item, b: State, items: seq<Item>, c: State)
    requires Effects(cfg, a, [item], b) && Effects(cfg, b, items, c)
    ensures Effects(cfg, a, [item] + items, c)
  {
    hide ValueIs, ListsAre, IsSet;
    ListsStep(a, item, b, items, c);
    forall name
      ensures IsSet(c.flags, name) <==> IsSet(a.flags, name) || GivesFlag(name) in [item] + items
      ensures ValueIs(cfg, a, ValuesGiven([item] + items, name), c, name)
    {
      assert IsSet(b.flags, name) <==> IsSet(a.flags, name) || GivesFlag(name) in [item];
      GivenAcross(item, items, name);
      assert ValueIs(cfg, a, ValuesGiven([item], name), b, name) && ValueIs(cfg, b, ValuesGiven(items, name), c, name);
      ValueStep(cfg, a, ValuesGiven([item], name), b, ValuesGiven(items, name), c, name);
    }
  }

  lemma NoEffects(cfg: Config, a: State, b: State)
    requires b == a.(showVersion := b.showVersion)
    ensures Effects(cfg, a, [], b)
  {}

  lemma OneItem(item: Item)
    ensures PositionalsGiven([item]) == if item.GivesPositional? then [item.arg] else []
    ensures PassedOn([item]) == if item.PassesOn? then item.args else []
    ensures RecordsOf([item]) == RecordOf(item)
  {
    hide RecordOf;
    assert [item][1..] == [];
    assert PositionalsGiven([item]) == (if item.GivesPositional? then [item.arg] else []) + [];
    assert PassedOn([item]) == (if item.PassesOn? then item.args else []) + [];
    assert RecordsOf([item]) == RecordOf(item) + [];
  }

  lemma FlagEffects(cfg: Config, a: State, name: string)
    ensures Effects(cfg, a, [GivesFlag(name)], SetFlag(a, name))
  {
    var item := GivesFlag(name);
    OneItem(item);
  }

  lemma ValueEffects(cfg: Config, a: State, name: string, value: string)
    requires cfg.TakesValue(name)
    ensures Effects(cfg, a, [GivesValue(name, value)], SetValue(cfg, a, name, value))
  {
    var item, b := GivesValue(name, value), SetValue(cfg, a, name, value);
    hide ValueIs, IsSet;
    OneItem(item);
    forall other
      ensures ValueIs(cfg, a, ValuesGiven([item], other), b, other)
    {
      OneValue(item, other);
      ValueSetIs(cfg, a, name, value, other);
    }
  }

  lemma OneValue(item: Item, name: string)
    requires item.GivesValue?
    ensures ValuesGiven([item], name) == if item.name == name then [item.value] else []
  {
    assert [item][1..] == [];
  }

  lemma ValueSetIs(cfg: Config, a: State, name: string, value: string, other: string)
    requires cfg.TakesValue(name)
    ensures ValueIs(cfg, a, if name == other then [value] else [], SetValue(cfg, a, name, value), other)
  {}

  lemma PositionalEffects(cfg: Config, a: State, arg: string)
    ensures Effects(cfg, a, [GivesPositional(arg)],
                    a.(positionals := a.positionals + [arg], normalized := a.normalized + [arg]))
  {
    var item := GivesPositional(arg);
    OneItem(item);
  }

  lemma PassEffects(cfg: Config, a: State, args: seq<string>, b: State)
    requires b == a.(passthrough := a.passthrough + args, normalized := a.normalized + ["--"] + args)
    ensures Effects(cfg, a, [PassesOn(args)], b)
  {
    var item := PassesOn(args);
    OneItem(item);
    assert a.normalized + ["--"] + args == a.normalized + (["--"] + args);
  }

  // ---------------------------------------------------------------------------------------------
  // One step of the parser reads one item
  // ---------------------------------------------------------------------------------------------

  lemma ClassifyIs(arg: string)
    ensures Special(arg) <==> Classify(arg) != Other
    ensures Classify(arg) == Separator <==> arg == "--"
    ensures Classify(arg) == AsanAlias <==> SpelledAsan(arg)
    ensures Classify(arg) == OwnershipAlias <==> SpelledOwnership(arg)
    ensures Classify(arg) == Help <==> AsksHelp(arg)
    ensures Classify(arg) == Version <==> arg == "--version"
  {
    assert arg != "--" || |arg| == 2;
  }

  /** A step that goes on has read one item, and done what it does. */
  lemma StepReads(cfg: Config, st: State, tokens: seq<string>) returns (item: Item, n: nat)
    requires tokens != [] && Step(cfg, st, tokens).Next?
    ensures FirstItem(cfg, tokens, item, n) && !item.PassesOn? && Step(cfg, st, tokens).rest == tokens[n..]
    ensures Effects(cfg, st, [item], Step(cfg, st, tokens).st)
  {
    hide Effects, Classify, SetFlag, SetValue, SpelledAsan, SpelledOwnership, AsksHelp;
    var arg := tokens[0];
    ClassifyIs(arg);
    assert tokens[..1] == [arg];
    match Classify(arg)
    case AsanAlias =>
      item, n := GivesFlag(ASAN), 1;
      FlagEffects(cfg, st, ASAN);
    case OwnershipAlias =>
      item, n := GivesFlag(OWNERSHIP), 1;
      FlagEffects(cfg, st, OWNERSHIP);
    case Other =>
      hide Special;
      item, n := OrdinaryReads(cfg, st, tokens);
  }

  lemma OrdinaryReads(cfg: Config, st: State, tokens: seq<string>) returns (item: Item, n: nat)
    requires tokens != [] && !Special(tokens[0]) && Ordinary(cfg, st, tokens[0], tokens[1..]).Next?
    ensures FirstItem(cfg, tokens, item, n) && !item.PassesOn?
    ensures Ordinary(cfg, st, tokens[0], tokens[1..]).rest == tokens[n..]
    ensures Effects(cfg, st, [item], Ordinary(cfg, st, tokens[0], tokens[1..]).st)
  {
    hide Effects, SetFlag, SetValue, Special, ShapeOf;
    var arg := tokens[0];
    ShapeIs(arg);
    assert tokens[..1] == [arg];
    match ShapeOf(arg)
    case Long(name) => item, n := ApplyReads(cfg, st, tokens, name, LongForm(name));
    case Short(c) => item, n := ApplyReads(cfg, st, tokens, cfg.Resolve(c), arg);
    case Dash =>
      n := 1;
      if cfg.IsFlag(arg[1..]) {
        item := GivesFlag(arg[1..]);
        assert arg == "-" + arg[1..];
        FlagEffects(cfg, st, arg[1..]);
      } else {
        var name := cfg.Resolve(arg[1]);
        item := GivesValue(name, arg[2..]);
        assert arg == ['-', arg[1]] + arg[2..];
        ValueEffects(cfg, st, name, arg[2..]);
      }
    case Positional =>
      item, n := GivesPositional(arg), 1;
      PositionalEffects(cfg, st, arg);
  }

  lemma ShapeIs(arg: string)
    ensures match ShapeOf(arg)
      case Long(name) => name != "" && arg == "--" + name
      case Short(c) => arg == ['-', c]
      case Dash => |arg| > 2 && arg[0] == '-' && arg[1] != '-'
      case Positional => NoDash(arg)
    ensures ShapeOf(arg) == Positional <==> NoDash(arg)
  {
    if ShapeOf(arg).Short? { assert arg == ['-', arg[1]]; }
    if ShapeOf(arg).Long? { assert arg == "--" + arg[2..]; }
    assert |arg| == 1 && arg[0] == '-' <==> arg == "-";
  }

  lemma ApplyReads(cfg: Config, st: State, tokens: seq<string>, name: string, display: string)
    returns (item: Item, n: nat)
    requires tokens != [] && !Special(tokens[0]) && name != "" && Apply(cfg, st, name, display, tokens[1..]).Next?
    requires tokens[0] == "--" + name || exists c :: c in cfg.shorts && cfg.shorts[c] == name && tokens[0] == ['-', c]
    ensures FirstItem(cfg, tokens, item, n) && !item.PassesOn?
    ensures Apply(cfg, st, name, display, tokens[1..]).rest == tokens[n..]
    ensures Effects(cfg, st, [item], Apply(cfg, st, name, display, tokens[1..]).st)
  {
    hide Effects, SetFlag, SetValue, Special;
    assert tokens[..1] == [tokens[0]];
    if cfg.IsFlag(name) {
      item, n := GivesFlag(name), 1;
      FlagEffects(cfg, st, name);
    } else {
      item, n := GivesValue(name, tokens[1]), 2;
      assert tokens[..2] == [tokens[0], tokens[1]];
      ValueEffects(cfg, st, name, tokens[1]);
    }
  }

  // ---------------------------------------------------------------------------------------------
  // The whole command line
  // ---------------------------------------------------------------------------------------------

  /** A step that stops, other than at a "--", does so at what ends a reading. */
  lemma StepStops(cfg: Config, st: State, tokens: seq<string>)
    requires tokens != [] && tokens[0] != "--" && Step(cfg, st, tokens).Stop?
    ensures var Stop(outcome, after) := Step(cfg, st, tokens);
      exists version :: Ends(cfg, tokens, outcome, version) && after == st.(showVersion := version || st.showVersion)
  {
    hide Classify, SpelledAsan, SpelledOwnership;
    var arg := tokens[0];
    ClassifyIs(arg);
    var Stop(outcome, after) := Step(cfg, st, tokens);
    if Classify(arg) == Version {
      assert Ends(cfg, tokens, outcome, true);
    } else {
      if Classify(arg) == Other { OrdinaryStops(cfg, st, tokens); }
      assert Ends(cfg, tokens, outcome, false);
    }
  }

  lemma OrdinaryStops(cfg: Config, st: State, tokens: seq<string>)
    requires tokens != [] && !Special(tokens[0]) && Ordinary(cfg, st, tokens[0], tokens[1..]).Stop?
    ensures var Stop(outcome, after) := Ordinary(cfg, st, tokens[0], tokens[1..]);
      Ends(cfg, tokens, outcome, false) && after == st
  {
    hide Special, ShapeOf, AsksHelp;
    var arg := tokens[0];
    ShapeIs(arg);
    match ShapeOf(arg)
    case Long(name) =>
      assert arg[2..] == name;
      if cfg.TakesValue(name) { assert NamesOption(cfg, arg, name); } else { FitsNothing(cfg, arg); }
    case Short(c) =>
      var name := cfg.Resolve(c);
      if name != "" && cfg.TakesValue(name) { assert NamesOption(cfg, arg, name); } else { FitsNothing(cfg, arg); }
    case Dash => FitsNothing(cfg, arg);
    case Positional =>
  }

  // What a token can name, by its shape

  lemma NamedBy(cfg: Config, arg: string, name: string)
    requires Names(cfg, arg, name)
    ensures |arg| >= 2 && arg[0] == '-'
    ensures if |arg| == 2 then arg[1] in cfg.shorts && cfg.shorts[arg[1]] == name else arg[1] == '-' && name == arg[2..]
  {
    hide Special;
    if arg == "--" + name {
      assert name == arg[2..] && |arg| == 2 + |name|;
    } else {
      var c :| c in cfg.shorts && cfg.shorts[c] == name && arg == ['-', c];
    }
  }

  lemma FlagNamedBy(cfg: Config, arg: string, name: string)
    requires NamesFlag(cfg, arg, name) && !Special(arg)
    ensures Names(cfg, arg, name) || (|arg| > 2 && arg[0] == '-' && arg[1] != '-' && name == arg[1..])
    ensures cfg.IsFlag(name)
  {
    NotAlias(arg);
    hide Special, SpelledAsan, SpelledOwnership, Names;
    if !Names(cfg, arg, name) { assert name == arg[1..] && arg[1] == name[0]; }
  }

  lemma AttachedBy(cfg: Config, arg: string, name: string, value: string)
    requires Attaches(cfg, arg, name, value)
    ensures |arg| > 2 && arg[0] == '-' && arg[1] != '-' && arg[1] in cfg.shorts && cfg.shorts[arg[1]] == name
    ensures value == arg[2..] && !cfg.IsFlag(arg[1..]) && cfg.TakesValue(name)
  {
    hide Special;
    var c :| c in cfg.shorts && cfg.shorts[c] == name && c != '-' && arg == ['-', c] + value;
    assert arg[1] == c && arg[2..] == value;
  }

  lemma NotAlias(arg: string)
    requires !Special(arg)
    ensures !SpelledAsan(arg) && !SpelledOwnership(arg)
  {}

  /** What a token that is no special spelling names, by its shape alone. */
  lemma ShapeNames(cfg: Config, arg: string, name: string)
    requires Names(cfg, arg, name) || (!Special(arg) && NamesFlag(cfg, arg, name))
    ensures !Special(arg) && |arg| >= 2 && arg[0] == '-' && name in cfg.kinds
    ensures if |arg| == 2 then arg[1] in cfg.shorts && cfg.shorts[arg[1]] == name
            else if arg[1] == '-' then name == arg[2..]
            else name == arg[1..] && cfg.IsFlag(name)
  {
    hide NamesFlag;
    if Names(cfg, arg, name) { NamedBy(cfg, arg, name); }
    hide Names, Special;
    if !Names(cfg, arg, name) { FlagNamedBy(cfg, arg, name); }
  }

  /** A token names one thing at most, in one way. */
  lemma NamesOne(cfg: Config, arg: string, x: string, y: string)
    requires NamesFlag(cfg, arg, x) && (NamesFlag(cfg, arg, y) || NamesOption(cfg, arg, y))
    ensures x == y && !NamesOption(cfg, arg, y)
  {
    if Special(arg) {
      AliasesDiffer(arg);
      hide Special, SpelledAsan, SpelledOwnership;
    } else {
      hide Special, NamesFlag, Names;
      ShapeNames(cfg, arg, x);
      ShapeNames(cfg, arg, y);
      FlagNamedBy(cfg, arg, x);
    }
  }

  lemma AliasesDiffer(arg: string)
    ensures !(SpelledAsan(arg) && SpelledOwnership(arg))
    ensures SpelledAsan(arg) || SpelledOwnership(arg) ==> Special(arg) && !NoDash(arg) && arg != "--"
  {
    assert SpelledAsan(arg) ==> |arg| > 2 && arg[|arg| - 1] == 's';
    assert SpelledOwnership(arg) ==> |arg| > 2 && arg[|arg| - 1] == 'p';
  }

  lemma OptionsOne(cfg: Config, arg: string, x: string, y: string)
    requires NamesOption(cfg, arg, x) && NamesOption(cfg, arg, y)
    ensures x == y
  {
    hide Special, Names;
    ShapeNames(cfg, arg, x);
    ShapeNames(cfg, arg, y);
  }

  lemma AttachesAlone(cfg: Config, arg: string, x: string, value: string, y: string)
    requires Attaches(cfg, arg, x, value)
    ensures !NamesFlag(cfg, arg, y) && !NamesOption(cfg, arg, y)
  {
    AttachedBy(cfg, arg, x, value);
    assert !Special(arg);
    hide Special, Names, Attaches;
    if Names(cfg, arg, y) || NamesFlag(cfg, arg, y) {
      hide NamesFlag;
      ShapeNames(cfg, arg, y);
    }
  }

  lemma DashedOnly(cfg: Config, arg: string, name: string, value: string)
    requires NamesFlag(cfg, arg, name) || NamesOption(cfg, arg, name) || Attaches(cfg, arg, name, value)
    ensures !NoDash(arg) && arg != "--"
  {
    AliasesDiffer(arg);
    hide SpelledAsan, SpelledOwnership;
    if Attaches(cfg, arg, name, value) {
      hide Special;
      AttachedBy(cfg, arg, name, value);
    } else if !Special(arg) {
      hide Special, Names, NamesFlag;
      ShapeNames(cfg, arg, name);
    }
  }

  /** The first item read is the only one the tokens could stand for. */
  lemma ReadOneWay(cfg: Config, tokens: seq<string>, a: Item, n: nat, b: Item, m: nat)
    requires FirstItem(cfg, tokens, a, n) && FirstItem(cfg, tokens, b, m)
    ensures a == b && n == m
  {
    hide NamesFlag, NamesOption, Attaches, NoDash;
    var arg := tokens[0];
    assert tokens[..n][0] == arg == tokens[..m][0];
    match (a, b)
    case (GivesFlag(x), GivesFlag(y)) => NamesOne(cfg, arg, x, y);
    case (GivesFlag(x), GivesValue(y, v)) => FlagOrValue(cfg, tokens, x, n, y, v, m);
    case (GivesValue(y, v), GivesFlag(x)) => FlagOrValue(cfg, tokens, x, m, y, v, n);
    case (GivesValue(x, v), GivesValue(y, w)) => OneValueRead(cfg, tokens, x, v, n, y, w, m);
    case (GivesFlag(x), _) => DashedOnly(cfg, arg, x, "");
    case (_, GivesFlag(y)) => DashedOnly(cfg, arg, y, "");
    case (GivesValue(x, v), _) => DashedOnly(cfg, arg, x, v);
    case (_, GivesValue(y, w)) => DashedOnly(cfg, arg, y, w);
    case (PassesOn(x), PassesOn(y)) =>
      assert tokens[..n] == tokens == ["--"] + x && tokens[..m] == tokens == ["--"] + y;
      assert x == tokens[1..] == y;
    case _ => DashesAreDashed();
  }

  lemma FlagOrValue(cfg: Config, tokens: seq<string>, x: string, n: nat, y: string, v: string, m: nat)
    requires FirstItem(cfg, tokens, GivesFlag(x), n)
    ensures !FirstItem(cfg, tokens, GivesValue(y, v), m)
  {
    hide NamesFlag, NamesOption, Attaches;
    if FirstItem(cfg, tokens, GivesValue(y, v), m) {
      var arg := tokens[0];
      assert tokens[..n][0] == arg == tokens[..m][0];
      if Attaches(cfg, arg, y, v) { AttachesAlone(cfg, arg, y, v, x); } else { NamesOne(cfg, arg, x, y); }
    }
  }

  lemma DashesAreDashed()
    ensures !NoDash("--")
  {
    assert "--" != "-" by { assert |"--"| == 2; }
  }

  lemma OneValueRead(cfg: Config, tokens: seq<string>, x: string, v: string, n: nat, y: string, w: string, m: nat)
    requires FirstItem(cfg, tokens, GivesValue(x, v), n) && FirstItem(cfg, tokens, GivesValue(y, w), m)
    ensures x == y && v == w && n == m
  {
    hide NamesFlag, NamesOption, Attaches;
    var arg := tokens[0];
    assert tokens[..n][0] == arg == tokens[..m][0];
    if Attaches(cfg, arg, x, v) {
      AttachesAlone(cfg, arg, x, v, y);
      AttachedBy(cfg, arg, x, v);
      AttachedBy(cfg, arg, y, w);
    } else {
      if Attaches(cfg, arg, y, w) { AttachesAlone(cfg, arg, y, w, x); }
      OptionsOne(cfg, arg, x, y);
      assert v == tokens[..n][1] == tokens[1] == tokens[..m][1] == w;
    }
  }

  /** A dashed token that fits no registered name in its shape means nothing. */
  lemma FitsNothing(cfg: Config, arg: string)
    requires !Special(arg) && !NoDash(arg)
    requires |arg| == 2 ==> arg[1] !in cfg.shorts || cfg.shorts[arg[1]] == "" || cfg.shorts[arg[1]] !in cfg.kinds
    requires |arg| > 2 && arg[1] == '-' ==> arg[2..] !in cfg.kinds
    requires |arg| > 2 && arg[1] != '-' ==> !cfg.IsFlag(arg[1..])
    requires |arg| > 2 && arg[1] != '-' ==>
               arg[1] !in cfg.shorts || cfg.shorts[arg[1]] == "" || !cfg.TakesValue(cfg.shorts[arg[1]])
    ensures MeansNothing(cfg, arg)
  {
    hide Special, Names, NamesFlag, Attaches, NoDash;
    forall name
      ensures !NamesFlag(cfg, arg, name) && !NamesOption(cfg, arg, name)
    {
      if Names(cfg, arg, name) { NamedBy(cfg, arg, name); NamesAreRegistered(cfg, arg, name); }
      if NamesFlag(cfg, arg, name) { FlagNamedBy(cfg, arg, name); }
    }
    forall name, value
      ensures !Attaches(cfg, arg, name, value)
    {
      if Attaches(cfg, arg, name, value) { AttachedBy(cfg, arg, name, value); AttachesName(cfg, arg, name, value); }
    }
  }

  lemma NamesAreRegistered(cfg: Config, arg: string, name: string)
    requires Names(cfg, arg, name)
    ensures name in cfg.kinds && name != ""
  {}

  lemma AttachesName(cfg: Config, arg: string, name: string, value: string)
    requires Attaches(cfg, arg, name, value)
    ensures name != ""
  {}

  /**
   Parsing reads the tokens as items up to where the reading ends, does exactly what those items do, and
   gives the outcome of that end.
   */
  lemma {:induction false} ParseReads(cfg: Config, st: State, tokens: seq<string>)
    returns (items: seq<Item>, upTo: nat, version: bool)
    ensures upTo <= |tokens| && Reading(cfg, tokens, items, upTo)
    ensures var (outcome, after) := Parse(cfg, st, tokens);
      && Ends(cfg, tokens[upTo..], outcome, version) && after.showVersion == (version || st.showVersion)
      && Effects(cfg, st, items, after)
    decreases |tokens|
  {
    hide Step, Effects, Means, Classify, Ends;
    if tokens == [] {
      items, upTo, version := [], 0, false;
      NoEffects(cfg, st, st);
      EndsAtEnd(cfg);
    } else if tokens[0] == "--" {
      StopsAtDashes(cfg, st, tokens);
      items, upTo, version := [PassesOn(tokens[1..])], |tokens|, false;
      assert tokens[|tokens|..] == [];
      EndsAtEnd(cfg);
      assert FirstItem(cfg, tokens, items[0], |tokens|) && items[1..] == [];
    } else if Step(cfg, st, tokens).Next? {
      var item, n := StepReads(cfg, st, tokens);
      var after := Step(cfg, st, tokens).st;
      var others, rest, v := ParseReads(cfg, after, tokens[n..]);
      items, upTo, version := [item] + others, n + rest, v;
      assert tokens[upTo..] == tokens[n..][rest..] && items[1..] == others;
      EffectsStep(cfg, st, item, after, others, Parse(cfg, after, tokens[n..]).1);
      StepKeepsVersion(cfg, st, tokens);
    } else {
      StepStops(cfg, st, tokens);
      var v :| Ends(cfg, tokens, Step(cfg, st, tokens).outcome, v)
               && Step(cfg, st, tokens).st == st.(showVersion := v || st.showVersion);
      items, upTo, version := [], 0, v;
      NoEffects(cfg, st, Step(cfg, st, tokens).st);
      assert tokens[0..] == tokens;
    }
  }

  lemma EndsAtEnd(cfg: Config)
    ensures Ends(cfg, [], Done, false)
  {}

  lemma StepKeepsVersion(cfg: Config, st: State, tokens: seq<string>)
    requires tokens != [] && Step(cfg, st, tokens).Next?
    ensures Step(cfg, st, tokens).st.showVersion == st.showVersion
  {
    hide Classify, ShapeOf, LongForm;
  }

  lemma StopsAtDashes(cfg: Config, st: State, tokens: seq<string>)
    requires tokens != [] && tokens[0] == "--"
    ensures var (outcome, after) := Parse(cfg, st, tokens);
      outcome == Done && after.showVersion == st.showVersion && Effects(cfg, st, [PassesOn(tokens[1..])], after)
    ensures FirstItem(cfg, tokens, PassesOn(tokens[1..]), |tokens|)
  {
    hide Effects;
    assert tokens[..|tokens|] == tokens == ["--"] + tokens[1..];
    PassEffects(cfg, st, tokens[1..], Parse(cfg, st, tokens).1);
  }

  /** Where a reading ends, no item can be read. */
  lemma EndsReadNothing(cfg: Config, rest: seq<string>, outcome: Outcome, version: bool, item: Item, n: nat)
    requires rest != [] && Ends(cfg, rest, outcome, version)
    ensures !FirstItem(cfg, rest, item, n)
  {
    if FirstItem(cfg, rest, item, n) {
      var arg := rest[0];
      assert rest[..n][0] == arg;
      AliasesDiffer(arg);
      AsksAreNoAliases(arg);
      hide Special, SpelledAsan, SpelledOwnership, AsksHelp, Names, NoDash, Attaches;
      if item.GivesValue? && Attaches(cfg, arg, item.name, item.value) {
        forall name
          ensures !NamesOption(cfg, arg, name)
        {
          AttachesAlone(cfg, arg, item.name, item.value, name);
        }
      }
      if item.GivesFlag? {
        forall name
          ensures !NamesOption(cfg, arg, name)
        {
          if NamesOption(cfg, arg, name) { NamesOne(cfg, arg, item.name, name); }
        }
      }
      if exists name :: NamesOption(cfg, arg, name) {
        var name :| NamesOption(cfg, arg, name);
        DashedOnly(cfg, arg, name, "");
      }
    }
  }

  lemma AsksAreNoAliases(arg: string)
    ensures AsksHelp(arg) || arg == "--version" ==>
              Special(arg) && !SpelledAsan(arg) && !SpelledOwnership(arg) && arg != "--" && !NoDash(arg)
  {}

  /** Tokens have one reading. */
  lemma {:induction false} OneReading(cfg: Config, tokens: seq<string>, a: seq<Item>, upTo: nat, outcome: Outcome,
                                      version: bool, b: seq<Item>)
    requires upTo <= |tokens| && Reading(cfg, tokens, a, upTo) && Ends(cfg, tokens[upTo..], outcome, version)
    requires Reading(cfg, tokens, b, |tokens|)
    ensures a == b && upTo == |tokens|
    decreases |b|
  {
    hide FirstItem, Ends;
    assert tokens[0..] == tokens;
    if a == [] || b == [] {
      if b != [] {
        var n: nat :| 0 < n <= |tokens| && FirstItem(cfg, tokens, b[0], n);
        EndsReadNothing(cfg, tokens, outcome, version, b[0], n);
      }
    } else {
      var n: nat :| 0 < n <= |tokens| && n <= upTo
                    && FirstItem(cfg, tokens, a[0], n) && Reading(cfg, tokens[n..], a[1..], upTo - n);
      var m: nat :| 0 < m <= |tokens| && FirstItem(cfg, tokens, b[0], m)
                    && Reading(cfg, tokens[m..], b[1..], |tokens| - m);
      ReadOneWay(cfg, tokens, a[0], n, b[0], m);
      assert tokens[n..][upTo - n..] == tokens[upTo..];
      OneReading(cfg, tokens[n..], a[1..], upTo - n, outcome, version, b[1..]);
      assert a == [a[0]] + a[1..] && b == [b[0]] + b[1..];
    }
  }

  /** Parsing gets through all its tokens exactly when they can be read, and then does what their reading says. */
  lemma ReadableIff(cfg: Config, st: State, tokens: seq<string>)
    requires !st.showVersion
    ensures var (outcome, after) := Parse(cfg, st, tokens);
      && (outcome == Done && !after.showVersion <==> exists items :: Reading(cfg, tokens, items, |tokens|))
      && forall items | Reading(cfg, tokens, items, |tokens|) :: Effects(cfg, st, items, after)
  {
    hide Reading, Effects, Parse;
    var items, upTo, version := ParseReads(cfg, st, tokens);
    var (outcome, after) := Parse(cfg, st, tokens);
    forall other | Reading(cfg, tokens, other, |tokens|)
      ensures other == items && outcome == Done && !version
    {
      OneReading(cfg, tokens, items, upTo, outcome, version, other);
      assert tokens[upTo..] == [];
    }
    if outcome == Done && !version { EndsDone(cfg, tokens[upTo..]); }
  }

  lemma EndsDone(cfg: Config, rest: seq<string>)
    requires Ends(cfg, rest, Done, false)
    ensures rest == []
  {}
}

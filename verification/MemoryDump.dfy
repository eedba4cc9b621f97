/** The argument parser and the query of scripts/dump-memory.ts. */
module MemoryDump {
  import opened Basics
  import opened Sorting

  datatype Options = Options(db: string, out: Option<string>, kind: string, since: Option<real>,
                             until: Option<real>, sessions: set<string>, priorities: set<string>,
                             tags: seq<string>, limit: Option<nat>, pretty: bool, stats: bool)

  /** What the parser calls: path resolution, `parseTime` and `Number` (None: it fails, or the
      number is not finite), and the default database path. */
  datatype Env = Env(home: string, resolve: string -> string, parseTime: string -> Option<real>,
                     number: string -> Option<real>)

  datatype Parsed =
    | Done(options: Options)
    | Help
    | MissingValue(flag: string)
    | BadValue(flag: string)
    | UnknownOption(arg: string)

  datatype Flag = Db | Out | Kind | Since | Until | Session | Priority | Tag | Limit | Pretty | Stats

  function Name(f: Flag): string {
    match f
    case Db => "--db"
    case Out => "--out"
    case Kind => "--kind"
    case Since => "--since"
    case Until => "--until"
    case Session => "--session"
    case Priority => "--priority"
    case Tag => "--tag"
    case Limit => "--limit"
    case Pretty => "--pretty"
    case Stats => "--stats"
  }

  function FlagOf(arg: string): (f: Option<Flag>)
    ensures f.Some? ==> Name(f.value) == arg
  {
    match arg
    case "--db" => Some(Db)
    case "--out" => Some(Out)
    case "--kind" => Some(Kind)
    case "--since" => Some(Since)
    case "--until" => Some(Until)
    case "--session" => Some(Session)
    case "--priority" => Some(Priority)
    case "--tag" => Some(Tag)
    case "--limit" => Some(Limit)
    case "--pretty" => Some(Pretty)
    case "--stats" => Some(Stats)
    case _ => None
  }

  lemma FlagOfName(f: Flag)
    ensures FlagOf(Name(f)) == Some(f)
    ensures Name(f) != "-h" && Name(f) != "--help"
  {}

  /** Flags that take no value. */
  predicate Plain(f: Flag) { f == Pretty || f == Stats }

  const KINDS: set<string> := {"observation", "reflection", "all"}
  const PRIORITIES: set<string> := {"high", "medium", "low"}

  function Defaults(env: Env): Options {
    Options(env.home, None, "all", None, None, {}, {}, [], None, false, false)
  }

  // ---------------------------------------------------------------------------
  // The parser
  // ---------------------------------------------------------------------------

  /** One option of a command line; a plain flag carries no value of its own. */
  datatype Setting = Setting(flag: Flag, value: string)

  predicate Valid(env: Env, s: Setting) {
    match s.flag
    case Kind => s.value in KINDS
    case Since => env.parseTime(s.value).Some?
    case Until => env.parseTime(s.value).Some?
    case Priority => s.value in PRIORITIES
    case Limit => env.number(s.value).Some? && env.number(s.value).value > 0.0
    case _ => true
  }

  function Set(env: Env, o: Options, s: Setting): Options
    requires Valid(env, s)
  {
    match s.flag
    case Db => o.(db := env.resolve(s.value))
    case Out => o.(out := Some(env.resolve(s.value)))
    case Kind => o.(kind := s.value)
    case Since => o.(since := env.parseTime(s.value))
    case Until => o.(until := env.parseTime(s.value))
    case Session => o.(sessions := o.sessions + {s.value})
    case Priority => o.(priorities := o.priorities + {s.value})
    case Tag => o.(tags := o.tags + [s.value])
    case Limit => o.(limit := Some(FloorOf(env.number(s.value).value)))
    case Pretty => o.(pretty := true)
    case Stats => o.(stats := true)
  }

  function FloorOf(n: real): nat
    requires n > 0.0
  {
    n.Floor
  }

  function Tokens(s: Setting): seq<string> {
    if Plain(s.flag) then [Name(s.flag)] else [Name(s.flag), s.value]
  }

  function Render(settings: seq<Setting>): seq<string> {
    if settings == [] then [] else Tokens(settings[0]) + Render(settings[1..])
  }

  ghost predicate AllValid(env: Env, settings: seq<Setting>) {
    forall s | s in settings :: Valid(env, s)
  }

  ghost function SetAll(env: Env, o: Options, settings: seq<Setting>): Options
    requires AllValid(env, settings)
    decreases settings
  {
    if settings == [] then o else SetAll(env, Set(env, o, settings[0]), settings[1..])
  }

  /** The parser as a function of what is left of the command line. */
  function Parse(env: Env, o: Options, argv: seq<string>): Parsed
    decreases argv
  {
    if argv == [] then Done(o)
    else if argv[0] == "-h" || argv[0] == "--help" then Help
    else
      match FlagOf(argv[0])
      case None => UnknownOption(argv[0])
      case Some(f) =>
        if Plain(f) then Parse(env, Set(env, o, Setting(f, "")), argv[1..])
        else if |argv| == 1 then MissingValue(argv[0])
        else if !Valid(env, Setting(f, argv[1])) then BadValue(argv[0])
        else Parse(env, Set(env, o, Setting(f, argv[1])), argv[2..])
  }

  /** The source's loop: a cursor over argv that `next` moves ahead of the loop. */
  method ParseArgs(env: Env, argv: seq<string>) returns (r: Parsed)
    ensures r == Parse(env, Defaults(env), argv)
  {
    hide Name, FlagOf;
    var opts := Defaults(env);
    var i := 0;
    while i < |argv|
      invariant 0 <= i <= |argv|
      invariant Parse(env, Defaults(env), argv) == Parse(env, opts, argv[i..])
      decreases |argv| - i
    {
      var arg := argv[i];
      assert argv[i..][0] == arg && argv[i..][1..] == argv[i + 1..];
      if arg == "-h" || arg == "--help" {
        return Help;
      }
      var flag := FlagOf(arg);
      if flag.None? {
        return UnknownOption(arg);
      }
      var v := "";
      if !Plain(flag.value) {
        i := i + 1;
        if i == |argv| {
          return MissingValue(arg);
        }
        v := argv[i];
        assert argv[i - 1..][1] == v && argv[i - 1..][2..] == argv[i + 1..];
      }
      match flag.value {
        case Db => opts := opts.(db := env.resolve(v));
        case Out => opts := opts.(out := Some(env.resolve(v)));
        case Kind =>
          if v !in KINDS {
            return BadValue(arg);
          }
          opts := opts.(kind := v);
        case Since =>
          var t := env.parseTime(v);
          if t.None? {
            return BadValue(arg);
          }
          opts := opts.(since := t);
        case Until =>
          var t := env.parseTime(v);
          if t.None? {
            return BadValue(arg);
          }
          opts := opts.(until := t);
        case Session => opts := opts.(sessions := opts.sessions + {v});
        case Priority =>
          if v !in PRIORITIES {
            return BadValue(arg);
          }
          opts := opts.(priorities := opts.priorities + {v});
        case Tag => opts := opts.(tags := opts.tags + [v]);
        case Limit =>
          var n := env.number(v);
          if n.None? || n.value <= 0.0 {
            return BadValue(arg);
          }
          opts := opts.(limit := Some(n.value.Floor));
        case Pretty => opts := opts.(pretty := true);
        case Stats => opts := opts.(stats := true);
      }
      i := i + 1;
    }
    return Done(opts);
  }

  /** One valid setting is taken off the front and applied. */
  lemma ParseSetting(env: Env, o: Options, s: Setting, argv: seq<string>)
    requires Valid(env, s)
    ensures Parse(env, o, Tokens(s) + argv) == Parse(env, Set(env, o, s), argv)
  {
    FlagOfName(s.flag);
    hide Name, FlagOf;
    var whole := Tokens(s) + argv;
    assert whole[|Tokens(s)|..] == argv;
    if Plain(s.flag) {
      assert Set(env, o, s) == Set(env, o, Setting(s.flag, ""));
    }
  }

  lemma {:induction false} ParseRendered(env: Env, o: Options, settings: seq<Setting>)
    requires AllValid(env, settings)
    ensures Parse(env, o, Render(settings)) == Done(SetAll(env, o, settings))
    decreases settings
  {
    if settings != [] {
      hide Parse, Valid, Set, Tokens;
      ParseSetting(env, o, settings[0], Render(settings[1..]));
      ParseRendered(env, Set(env, o, settings[0]), settings[1..]);
    }
  }

  lemma {:induction false} ParsedWasRendered(env: Env, o: Options, argv: seq<string>)
    returns (settings: seq<Setting>)
    requires Parse(env, o, argv).Done?
    ensures AllValid(env, settings) && argv == Render(settings)
    ensures Parse(env, o, argv) == Done(SetAll(env, o, settings))
    decreases argv
  {
    hide Name, FlagOf;
    if argv == [] {
      settings := [];
    } else {
      var f := FlagOf(argv[0]).value;
      var s := Setting(f, if Plain(f) then "" else argv[1]);
      var rest := ParsedWasRendered(env, Set(env, o, s), argv[|Tokens(s)|..]);
      settings := [s] + rest;
      assert settings[1..] == rest;
      assert argv == Tokens(s) + argv[|Tokens(s)|..];
    }
  }

  /** The parser accepts exactly the renderings of valid settings and folds them in order. */
  lemma AcceptsExactly(env: Env, argv: seq<string>, o: Options)
    ensures Parse(env, Defaults(env), argv) == Done(o)
       <==> exists settings :: AllValid(env, settings) && argv == Render(settings)
                               && o == SetAll(env, Defaults(env), settings)
  {
    if Parse(env, Defaults(env), argv) == Done(o) {
      var settings := ParsedWasRendered(env, Defaults(env), argv);
    }
    if settings :| AllValid(env, settings) && argv == Render(settings)
                   && o == SetAll(env, Defaults(env), settings) {
      ParseRendered(env, Defaults(env), settings);
    }
  }

  /** What stands at the head of `tail` makes the parser give up with `r`. */
  ghost predicate Stops(env: Env, tail: seq<string>, r: Parsed) {
    && tail != []
    && match r
       case Done(_) => false
       case Help => tail[0] == "-h" || tail[0] == "--help"
       case UnknownOption(arg) =>
         arg == tail[0] && arg != "-h" && arg != "--help" && forall f: Flag :: Name(f) != arg
       case MissingValue(arg) =>
         arg == tail[0] && |tail| == 1 && exists f: Flag :: Name(f) == arg && !Plain(f)
       case BadValue(arg) =>
         && arg == tail[0] && |tail| > 1
         && exists f: Flag :: Name(f) == arg && !Plain(f) && !Valid(env, Setting(f, tail[1]))
  }

  lemma StopsHere(env: Env, o: Options, tail: seq<string>, r: Parsed)
    requires Stops(env, tail, r)
    ensures Parse(env, o, tail) == r
  {
    hide Name, FlagOf, Valid;
    forall f: Flag ensures FlagOf(Name(f)) == Some(f) && Name(f) != "-h" && Name(f) != "--help" {
      FlagOfName(f);
    }
  }

  lemma {:induction false} ParseStops(env: Env, o: Options, settings: seq<Setting>,
                                      tail: seq<string>, r: Parsed)
    requires AllValid(env, settings) && Stops(env, tail, r)
    ensures Parse(env, o, Render(settings) + tail) == r
    decreases settings
  {
    if settings == [] {
      StopsHere(env, o, tail, r);
      assert Render(settings) + tail == tail;
    } else {
      hide Parse, Valid, Set, Tokens, Stops;
      assert Render(settings) + tail == Tokens(settings[0]) + (Render(settings[1..]) + tail);
      ParseSetting(env, o, settings[0], Render(settings[1..]) + tail);
      ParseStops(env, Set(env, o, settings[0]), settings[1..], tail, r);
    }
  }

  lemma {:induction false} StoppedAfter(env: Env, o: Options, argv: seq<string>)
    returns (settings: seq<Setting>, tail: seq<string>)
    requires !Parse(env, o, argv).Done?
    ensures AllValid(env, settings) && argv == Render(settings) + tail
    ensures Stops(env, tail, Parse(env, o, argv))
    decreases argv
  {
    hide Name, FlagOf;
    settings, tail := [], argv;
    forall f: Flag ensures FlagOf(Name(f)) == Some(f) { FlagOfName(f); }
    if FlagOf(argv[0]).Some? && argv[0] != "-h" && argv[0] != "--help" {
      var f := FlagOf(argv[0]).value;
      if Plain(f) || (|argv| > 1 && Valid(env, Setting(f, argv[1]))) {
        var s := Setting(f, if Plain(f) then "" else argv[1]);
        var rest;
        rest, tail := StoppedAfter(env, Set(env, o, s), argv[|Tokens(s)|..]);
        settings := [s] + rest;
        assert settings[1..] == rest;
        assert argv == Tokens(s) + argv[|Tokens(s)|..];
      }
    }
  }

  /** The parser gives up with `r` exactly when, behind valid settings, the next argument asks
      for help, is unknown, lacks its value or has a bad one; what follows is not looked at. */
  lemma RejectsExactly(env: Env, argv: seq<string>, r: Parsed)
    requires !r.Done?
    ensures Parse(env, Defaults(env), argv) == r
       <==> exists settings, tail :: AllValid(env, settings) && argv == Render(settings) + tail
                                     && Stops(env, tail, r)
  {
    if Parse(env, Defaults(env), argv) == r {
      var settings, tail := StoppedAfter(env, Defaults(env), argv);
    }
    if settings, tail :| AllValid(env, settings) && argv == Render(settings) + tail
                         && Stops(env, tail, r) {
      ParseStops(env, Defaults(env), settings, tail, r);
    }
  }

  // ---------------------------------------------------------------------------
  // Argument by argument
  // ---------------------------------------------------------------------------

  lemma SwitchFlags(env: Env, o: Options, rest: seq<string>)
    ensures Parse(env, o, ["--pretty"] + rest) == Parse(env, o.(pretty := true), rest)
    ensures Parse(env, o, ["--stats"] + rest) == Parse(env, o.(stats := true), rest)
  {
    ParseSetting(env, o, Setting(Pretty, ""), rest);
    ParseSetting(env, o, Setting(Stats, ""), rest);
    hide Parse, FlagOf;
  }

  lemma PathFlags(env: Env, o: Options, v: string, rest: seq<string>)
    ensures Parse(env, o, ["--db", v] + rest) == Parse(env, o.(db := env.resolve(v)), rest)
    ensures Parse(env, o, ["--out", v] + rest) == Parse(env, o.(out := Some(env.resolve(v))), rest)
  {
    hide Parse, FlagOf;
    ParseSetting(env, o, Setting(Db, v), rest);
    ParseSetting(env, o, Setting(Out, v), rest);
  }

  lemma CollectingFlags(env: Env, o: Options, v: string, rest: seq<string>)
    ensures Parse(env, o, ["--session", v] + rest) == Parse(env, o.(sessions := o.sessions + {v}), rest)
    ensures Parse(env, o, ["--tag", v] + rest) == Parse(env, o.(tags := o.tags + [v]), rest)
  {
    hide Parse, FlagOf;
    ParseSetting(env, o, Setting(Session, v), rest);
    ParseSetting(env, o, Setting(Tag, v), rest);
  }

  /** A flag with a value that is not valid stops the parser. */
  lemma BadSetting(env: Env, o: Options, s: Setting, rest: seq<string>)
    requires !Plain(s.flag) && !Valid(env, s)
    ensures Parse(env, o, [Name(s.flag), s.value] + rest) == BadValue(Name(s.flag))
  {
    FlagOfName(s.flag);
    hide Name, FlagOf;
  }

  lemma WordFlags(env: Env, o: Options, v: string, rest: seq<string>)
    ensures Parse(env, o, ["--kind", v] + rest)
         == if v == "observation" || v == "reflection" || v == "all" then Parse(env, o.(kind := v), rest)
            else BadValue("--kind")
    ensures Parse(env, o, ["--priority", v] + rest)
         == if v == "high" || v == "medium" || v == "low"
            then Parse(env, o.(priorities := o.priorities + {v}), rest)
            else BadValue("--priority")
  {
    var kind, priority := Setting(Kind, v), Setting(Priority, v);
    if Valid(env, kind) { ParseSetting(env, o, kind, rest); } else { BadSetting(env, o, kind, rest); }
    if Valid(env, priority) { ParseSetting(env, o, priority, rest); } else { BadSetting(env, o, priority, rest); }
    hide Parse, FlagOf;
  }

  lemma TimeFlags(env: Env, o: Options, v: string, rest: seq<string>)
    ensures Parse(env, o, ["--since", v] + rest)
         == if env.parseTime(v).Some? then Parse(env, o.(since := env.parseTime(v)), rest)
            else BadValue("--since")
    ensures Parse(env, o, ["--until", v] + rest)
         == if env.parseTime(v).Some? then Parse(env, o.(until := env.parseTime(v)), rest)
            else BadValue("--until")
  {
    var since, until := Setting(Since, v), Setting(Until, v);
    if env.parseTime(v).Some? {
      ParseSetting(env, o, since, rest);
      ParseSetting(env, o, until, rest);
    } else {
      BadSetting(env, o, since, rest);
      BadSetting(env, o, until, rest);
    }
    hide Parse, FlagOf;
  }

  /** A limit is a finite positive number; its whole part counts. */
  lemma LimitFlag(env: Env, o: Options, v: string, rest: seq<string>, n: nat)
    requires env.number(v).Some? && env.number(v).value > 0.0 ==>
               n as real <= env.number(v).value < n as real + 1.0
    ensures Parse(env, o, ["--limit", v] + rest)
         == if env.number(v).Some? && env.number(v).value > 0.0
            then Parse(env, o.(limit := Some(n)), rest)
            else BadValue("--limit")
  {
    var s := Setting(Limit, v);
    if Valid(env, s) {
      ParseSetting(env, o, s, rest);
      assert FloorOf(env.number(v).value) == n;
    } else {
      BadSetting(env, o, s, rest);
    }
    hide Parse, FlagOf;
  }

  const VALUED: set<string> :=
    {"--db", "--out", "--kind", "--since", "--until", "--session", "--priority", "--tag", "--limit"}
  const SWITCHES: set<string> := {"--pretty", "--stats", "-h", "--help"}

  /** Help, a last flag without its value, and an unknown argument. */
  lemma OtherArguments(env: Env, o: Options, arg: string, rest: seq<string>)
    ensures Parse(env, o, ["-h"] + rest) == Parse(env, o, ["--help"] + rest) == Help
    ensures arg in VALUED ==> Parse(env, o, [arg]) == MissingValue(arg)
    ensures arg !in VALUED + SWITCHES ==> Parse(env, o, [arg] + rest) == UnknownOption(arg)
  {
    hide Valid, Set;
    assert ([arg] + rest)[0] == arg && (["-h"] + rest)[0] == "-h" && (["--help"] + rest)[0] == "--help";
  }

  // ---------------------------------------------------------------------------
  // What each flag contributes
  // ---------------------------------------------------------------------------

  /** The values given to one flag, in order. */
  function Values(settings: seq<Setting>, flag: Flag): seq<string> {
    if settings == [] then []
    else Values(settings[..|settings| - 1], flag)
         + (if settings[|settings| - 1].flag == flag then [settings[|settings| - 1].value] else [])
  }

  function Last(values: seq<string>): Option<string> {
    if values == [] then None else Some(values[|values| - 1])
  }

  function Members(values: seq<string>): set<string> { set x | x in values }

  /** What the values of one flag say of the options: a scalar takes the last value, sessions
      and priorities are collected, tags keep their order. */
  ghost predicate Field(env: Env, f: Flag, values: seq<string>, o: Options) {
    match f
    case Db => o.db == (match Last(values) case None => env.home case Some(x) => env.resolve(x))
    case Out => o.out == (match Last(values) case None => None case Some(x) => Some(env.resolve(x)))
    case Kind => o.kind == (match Last(values) case None => "all" case Some(x) => x)
    case Since => o.since == (match Last(values) case None => None case Some(x) => env.parseTime(x))
    case Until => o.until == (match Last(values) case None => None case Some(x) => env.parseTime(x))
    case Session => o.sessions == Members(values)
    case Priority => o.priorities == Members(values)
    case Tag => o.tags == values
    case Limit =>
      (match Last(values)
       case None => o.limit == None
       case Some(x) => env.number(x).Some? && env.number(x).value > 0.0
                       && o.limit == Some(FloorOf(env.number(x).value)))
    case Pretty => o.pretty == (values != [])
    case Stats => o.stats == (values != [])
  }

  ghost predicate Explains(env: Env, settings: seq<Setting>, o: Options) {
    forall f: Flag :: Field(env, f, Values(settings, f), o)
  }

  lemma FieldNext(env: Env, f: Flag, values: seq<string>, o: Options, s: Setting)
    requires Valid(env, s) && Field(env, f, values, o)
    ensures Field(env, f, if f == s.flag then values + [s.value] else values, Set(env, o, s))
  {
    assert Members(values + [s.value]) == Members(values) + {s.value};
  }

  lemma ValuesNext(before: seq<Setting>, s: Setting, f: Flag)
    ensures Values(before + [s], f)
         == if f == s.flag then Values(before, f) + [s.value] else Values(before, f)
  {
    assert (before + [s])[..|before|] == before;
  }

  lemma ExplainsNext(env: Env, before: seq<Setting>, o: Options, s: Setting)
    requires Explains(env, before, o) && Valid(env, s)
    ensures Explains(env, before + [s], Set(env, o, s))
  {
    hide Field, Values, Valid, Set;
    forall f: Flag ensures Field(env, f, Values(before + [s], f), Set(env, o, s)) {
      ValuesNext(before, s, f);
      FieldNext(env, f, Values(before, f), o, s);
    }
  }

  lemma {:induction false} FoldExplained(env: Env, before: seq<Setting>, o: Options,
                                         settings: seq<Setting>)
    requires AllValid(env, settings) && Explains(env, before, o)
    ensures Explains(env, before + settings, SetAll(env, o, settings))
    decreases settings
  {
    hide Explains, Valid, Set;
    if settings == [] {
      assert before + settings == before;
    } else {
      var s := settings[0];
      ExplainsNext(env, before, o, s);
      FoldExplained(env, before + [s], Set(env, o, s), settings[1..]);
      assert before + settings == before + [s] + settings[1..];
    }
  }

  /** What a successful parse yields, flag by flag. */
  lemma ParsedIsExplained(env: Env, settings: seq<Setting>)
    requires AllValid(env, settings)
    ensures Explains(env, settings, SetAll(env, Defaults(env), settings))
  {
    FoldExplained(env, [], Defaults(env), settings);
    assert [] + settings == settings;
  }

  /** The flags' values determine the options. */
  lemma FieldsDetermine(env: Env, settings: seq<Setting>, x: Options, y: Options)
    requires Explains(env, settings, x) && Explains(env, settings, y)
    ensures x == y
  {
    hide Values;
    assert forall f: Flag :: Field(env, f, Values(settings, f), x) && Field(env, f, Values(settings, f), y);
    OneField(env, settings, x, y, Db);
    OneField(env, settings, x, y, Out);
    OneField(env, settings, x, y, Kind);
    OneField(env, settings, x, y, Since);
    OneField(env, settings, x, y, Until);
    OneField(env, settings, x, y, Session);
    OneField(env, settings, x, y, Priority);
    OneField(env, settings, x, y, Tag);
    OneField(env, settings, x, y, Limit);
    OneField(env, settings, x, y, Pretty);
    OneField(env, settings, x, y, Stats);
    hide Field, Explains;
  }

  predicate Agree(f: Flag, x: Options, y: Options) {
    match f
    case Db => x.db == y.db
    case Out => x.out == y.out
    case Kind => x.kind == y.kind
    case Since => x.since == y.since
    case Until => x.until == y.until
    case Session => x.sessions == y.sessions
    case Priority => x.priorities == y.priorities
    case Tag => x.tags == y.tags
    case Limit => x.limit == y.limit
    case Pretty => x.pretty == y.pretty
    case Stats => x.stats == y.stats
  }

  lemma OneField(env: Env, settings: seq<Setting>, x: Options, y: Options, f: Flag)
    requires Explains(env, settings, x) && Explains(env, settings, y)
    ensures Agree(f, x, y)
  {
    assert Field(env, f, Values(settings, f), x) && Field(env, f, Values(settings, f), y);
    hide Explains, Values;
  }

  /** Only the order within one flag matters: flags may be interleaved in any way. */
  lemma {:induction false} OrderOfFlagsIrrelevant(env: Env, xs: seq<Setting>, ys: seq<Setting>)
    requires AllValid(env, xs) && AllValid(env, ys)
    requires forall flag: Flag :: Values(xs, flag) == Values(ys, flag)
    ensures Parse(env, Defaults(env), Render(xs)) == Parse(env, Defaults(env), Render(ys))
  {
    ParseRendered(env, Defaults(env), xs);
    ParseRendered(env, Defaults(env), ys);
    ParsedIsExplained(env, xs);
    ParsedIsExplained(env, ys);
    var y := SetAll(env, Defaults(env), ys);
    hide Values, SetAll, Parse, Render, Field;
    forall f: Flag ensures Field(env, f, Values(xs, f), y) {
      assert Field(env, f, Values(ys, f), y);
    }
    FieldsDetermine(env, xs, SetAll(env, Defaults(env), xs), y);
  }

  // ---------------------------------------------------------------------------
  // Printing options and parsing them back
  // ---------------------------------------------------------------------------

  /** How times and limits are written so that they parse back. */
  datatype Printer = Printer(time: real -> string, limit: nat -> string)

  /** Resolved paths, known kind and priorities, a printer whose output parses back. */
  ghost predicate Printable(env: Env, p: Printer, o: Options) {
    && env.resolve(o.db) == o.db && (o.out.Some? ==> env.resolve(o.out.value) == o.out.value)
    && o.kind in KINDS && o.priorities <= PRIORITIES
    && (o.since.Some? ==> env.parseTime(p.time(o.since.value)) == o.since)
    && (o.until.Some? ==> env.parseTime(p.time(o.until.value)) == o.until)
    && (o.limit.Some? ==> var n := env.number(p.limit(o.limit.value));
                          n.Some? && n.value > 0.0 && FloorOf(n.value) == o.limit.value)
  }

  function Text(x: Option<string>): seq<string> { if x.None? then [] else [x.value] }

  function Time(p: Printer, x: Option<real>): seq<string> {
    if x.None? then [] else [p.time(x.value)]
  }

  /** These values of one flag write down the options: one value for a scalar, each member of
      a set at least once and in any order, the tags in order. */
  ghost predicate PrintsFlag(p: Printer, f: Flag, values: seq<string>, o: Options) {
    match f
    case Db => values == [o.db]
    case Out => values == Text(o.out)
    case Kind => values == [o.kind]
    case Since => values == Time(p, o.since)
    case Until => values == Time(p, o.until)
    case Session => Members(values) == o.sessions
    case Priority => Members(values) == o.priorities
    case Tag => values == o.tags
    case Limit => values == (if o.limit.None? then [] else [p.limit(o.limit.value)])
    case Pretty => values != [] <==> o.pretty
    case Stats => values != [] <==> o.stats
  }

  lemma PrintedField(env: Env, p: Printer, f: Flag, values: seq<string>, o: Options)
    requires Printable(env, p, o) && PrintsFlag(p, f, values, o)
    ensures Field(env, f, values, o)
    ensures forall x | x in values :: Valid(env, Setting(f, x))
  {
    forall x | x in values ensures Valid(env, Setting(f, x)) {
      assert x in Members(values);
    }
  }

  lemma {:induction false} ValueOf(settings: seq<Setting>, s: Setting)
    requires s in settings
    ensures s.value in Values(settings, s.flag)
  {
    var n := |settings| - 1;
    if settings[n] != s {
      assert s in settings[..n];
      ValueOf(settings[..n], s);
    }
  }

  /** Round trip: any options record, written with the flags in any order, is parsed back. */
  lemma PrintParse(env: Env, p: Printer, o: Options, settings: seq<Setting>)
    requires Printable(env, p, o)
    requires forall f: Flag :: PrintsFlag(p, f, Values(settings, f), o)
    ensures Parse(env, Defaults(env), Render(settings)) == Done(o)
  {
    hide Values, Parse, Render, Field, Printable, PrintsFlag, Valid;
    forall s | s in settings ensures Valid(env, s) {
      ValueOf(settings, s);
      PrintedField(env, p, s.flag, Values(settings, s.flag), o);
      assert s == Setting(s.flag, s.value);
    }
    forall f: Flag ensures Field(env, f, Values(settings, f), o) {
      PrintedField(env, p, f, Values(settings, f), o);
    }
    ParseRendered(env, Defaults(env), settings);
    ParsedIsExplained(env, settings);
    FieldsDetermine(env, settings, SetAll(env, Defaults(env), settings), o);
  }

  const ALL_FLAGS: seq<Flag> :=
    [Db, Out, Kind, Since, Until, Session, Priority, Tag, Limit, Pretty, Stats]

  function Block(f: Flag, values: seq<string>): seq<Setting> {
    seq(|values|, i requires 0 <= i < |values| => Setting(f, values[i]))
  }

  /** The settings flag by flag. */
  function Blocks(flags: seq<Flag>, v: Flag -> seq<string>): seq<Setting> {
    if flags == [] then []
    else Blocks(flags[..|flags| - 1], v) + Block(flags[|flags| - 1], v(flags[|flags| - 1]))
  }

  lemma {:induction false} ValuesConcat(a: seq<Setting>, b: seq<Setting>, f: Flag)
    ensures Values(a + b, f) == Values(a, f) + Values(b, f)
    decreases b
  {
    if b == [] {
      assert a + b == a;
    } else {
      assert (a + b)[..|a + b| - 1] == a + b[..|b| - 1];
      ValuesConcat(a, b[..|b| - 1], f);
    }
  }

  lemma {:induction false} ValuesOfBlock(f: Flag, values: seq<string>, g: Flag)
    ensures Values(Block(f, values), g) == if f == g then values else []
    decreases values
  {
    if values != [] {
      var n := |values| - 1;
      assert Block(f, values)[..n] == Block(f, values[..n]);
      ValuesOfBlock(f, values[..n], g);
    }
  }

  ghost predicate Distinct(flags: seq<Flag>) {
    forall i, j | 0 <= i < j < |flags| :: flags[i] != flags[j]
  }

  lemma DistinctButLast(flags: seq<Flag>, g: Flag)
    requires Distinct(flags) && flags != []
    ensures var n := |flags| - 1;
            Distinct(flags[..n]) && flags[n] !in flags[..n]
            && (g in flags <==> g in flags[..n] || g == flags[n])
  {}

  lemma {:induction false} ValuesOfBlocks(flags: seq<Flag>, v: Flag -> seq<string>, g: Flag)
    requires Distinct(flags)
    ensures Values(Blocks(flags, v), g) == if g in flags then v(g) else []
    decreases flags
  {
    if flags != [] {
      var n := |flags| - 1;
      DistinctButLast(flags, g);
      hide Distinct, Values, Block;
      ValuesOfBlocks(flags[..n], v, g);
      ValuesConcat(Blocks(flags[..n], v), Block(flags[n], v(flags[n])), g);
      ValuesOfBlock(flags[n], v(flags[n]), g);
    } else {
      assert Values([], g) == [];
    }
  }

  lemma {:induction false} Listing(s: set<string>) returns (values: seq<string>)
    ensures Members(values) == s
  {
    if |s| == 0 {
      values := [];
    } else {
      var x := Pick(s);
      var rest := Listing(s - {x});
      values := rest + [x];
      assert Members(values) == Members(rest) + {x};
    }
  }

  lemma FlagListed(f: Flag)
    ensures f in ALL_FLAGS
  {
    match f
    case Db => assert ALL_FLAGS[0] == f;
    case Out => assert ALL_FLAGS[1] == f;
    case Kind => assert ALL_FLAGS[2] == f;
    case Since => assert ALL_FLAGS[3] == f;
    case Until => assert ALL_FLAGS[4] == f;
    case Session => assert ALL_FLAGS[5] == f;
    case Priority => assert ALL_FLAGS[6] == f;
    case Tag => assert ALL_FLAGS[7] == f;
    case Limit => assert ALL_FLAGS[8] == f;
    case Pretty => assert ALL_FLAGS[9] == f;
    case Stats => assert ALL_FLAGS[10] == f;
  }

  lemma FlagsDistinct()
    ensures Distinct(ALL_FLAGS)
  {}

  function CommandLine(p: Printer, o: Options, sessions: seq<string>, priorities: seq<string>)
    : Flag -> seq<string>
  {
    (f: Flag) =>
      match f
      case Db => [o.db]
      case Out => Text(o.out)
      case Kind => [o.kind]
      case Since => Time(p, o.since)
      case Until => Time(p, o.until)
      case Session => sessions
      case Priority => priorities
      case Tag => o.tags
      case Limit => if o.limit.None? then [] else [p.limit(o.limit.value)]
      case Pretty => if o.pretty then [""] else []
      case Stats => if o.stats then [""] else []
  }

  lemma CommandLinePrints(p: Printer, o: Options, sessions: seq<string>, priorities: seq<string>, f: Flag)
    requires Members(sessions) == o.sessions && Members(priorities) == o.priorities
    ensures PrintsFlag(p, f, CommandLine(p, o, sessions, priorities)(f), o)
  {}

  /** Every printable options record has a command line, and that line parses back to it. */
  lemma EveryOptionsHasACommandLine(env: Env, p: Printer, o: Options) returns (settings: seq<Setting>)
    requires Printable(env, p, o)
    ensures forall f: Flag :: PrintsFlag(p, f, Values(settings, f), o)
    ensures Parse(env, Defaults(env), Render(settings)) == Done(o)
  {
    hide *;
    var sessions := Listing(o.sessions);
    var priorities := Listing(o.priorities);
    var v := CommandLine(p, o, sessions, priorities);
    settings := Blocks(ALL_FLAGS, v);
    FlagsDistinct();
    forall f: Flag ensures PrintsFlag(p, f, Values(settings, f), o) {
      FlagListed(f);
      ValuesOfBlocks(ALL_FLAGS, v, f);
      CommandLinePrints(p, o, sessions, priorities, f);
    }
    PrintParse(env, p, o, settings);
  }

  // ---------------------------------------------------------------------------
  // The query
  // ---------------------------------------------------------------------------

  datatype Row = Row(id: string, createdAt: real, sessionId: Option<string>, kind: string,
                     priority: string, tags: seq<string>, content: string)

  predicate Matches(row: Row, o: Options) {
    && (o.kind == "all" || row.kind == o.kind)
    && (o.since.Some? ==> row.createdAt >= o.since.value)
    && (o.until.Some? ==> row.createdAt <= o.until.value)
    && (o.sessions != {} ==> row.sessionId.Some? && row.sessionId.value in o.sessions)
    && (o.priorities != {} ==> row.priority in o.priorities)
    && forall tag | tag in o.tags :: tag in row.tags
  }

  /** The source's tests, one return for each reason to refuse a row. */
  method RowMatches(row: Row, o: Options) returns (ok: bool)
    ensures ok <==> Matches(row, o)
  {
    if o.kind != "all" && row.kind != o.kind {
      return false;
    }
    if o.since.Some? && row.createdAt < o.since.value {
      return false;
    }
    if o.until.Some? && row.createdAt > o.until.value {
      return false;
    }
    if o.sessions != {} && (row.sessionId == None || row.sessionId.value !in o.sessions) {
      return false;
    }
    if o.priorities != {} && row.priority !in o.priorities {
      return false;
    }
    for i := 0 to |o.tags|
      invariant forall j | 0 <= j < i :: o.tags[j] in row.tags
    {
      if o.tags[i] !in row.tags {
        return false;
      }
    }
    return true;
  }

  /** Each option narrows the selection by itself, and an option not given does nothing. */
  lemma MatchesExactly(row: Row, o: Options)
    ensures !Matches(row, o) <==>
              || (o.kind != "all" && o.kind != row.kind)
              || (exists t :: o.since == Some(t) && row.createdAt < t)
              || (exists t :: o.until == Some(t) && t < row.createdAt)
              || (o.sessions != {} && forall s | s in o.sessions :: row.sessionId != Some(s))
              || (o.priorities != {} && forall p | p in o.priorities :: row.priority != p)
              || (exists i | 0 <= i < |o.tags| :: o.tags[i] !in row.tags)
  {
    if o.sessions != {} && !(row.sessionId.Some? && row.sessionId.value in o.sessions) {
      assert forall s | s in o.sessions :: row.sessionId != Some(s);
    }
  }

  function Filter(rows: seq<Row>, o: Options): seq<Row> {
    if rows == [] then []
    else (if Matches(rows[0], o) then [rows[0]] else []) + Filter(rows[1..], o)
  }

  /** The comparator `b.createdAt - a.createdAt`, as an ascending key. */
  function Newest(row: Row): real { -row.createdAt }

  /** `slice(0, limit)`. */
  function Slice(rows: seq<Row>, limit: Option<nat>): seq<Row> {
    if limit.Some? && limit.value < |rows| then rows[..limit.value] else rows
  }

  function Select(rows: seq<Row>, o: Options): seq<Row> {
    Slice(Sort(Newest, Filter(rows, o)), o.limit)
  }

  lemma {:induction false} FilterKeeps(rows: seq<Row>, o: Options, row: Row)
    ensures multiset(Filter(rows, o))[row] == if Matches(row, o) then multiset(rows)[row] else 0
  {
    if rows != [] {
      FilterKeeps(rows[1..], o, row);
      assert rows == [rows[0]] + rows[1..];
    }
  }

  /** The filter goes through the rows in their order. */
  lemma {:induction false} FilterConcat(a: seq<Row>, b: seq<Row>, o: Options)
    ensures Filter(a + b, o) == Filter(a, o) + Filter(b, o)
  {
    hide Matches;
    if a == [] {
      assert a + b == b;
    } else {
      FilterNext(a, o);
      FilterNext(a + b, o);
      FilterConcat(a[1..], b, o);
      hide Filter;
      assert (a + b)[0] == a[0] && (a + b)[1..] == a[1..] + b;
    }
  }

  lemma FilterNext(rows: seq<Row>, o: Options)
    requires rows != []
    ensures Filter(rows, o) == (if Matches(rows[0], o) then [rows[0]] else []) + Filter(rows[1..], o)
  {
    hide Matches;
  }

  /** `out` is a best choice of `n` among `candidates`: newest first, and nothing left out is
      newer than anything taken. */
  ghost predicate IsNewest(candidates: seq<Row>, out: seq<Row>, left: seq<Row>) {
    && multiset(out) + multiset(left) == multiset(candidates)
    && (forall i, j | 0 <= i < j < |out| :: out[i].createdAt >= out[j].createdAt)
    && (forall x, y | x in out && y in left :: x.createdAt >= y.createdAt)
  }

  /** The query is an exact top-k over the matching rows. */
  lemma SelectIsTopK(rows: seq<Row>, o: Options) returns (left: seq<Row>)
    ensures IsNewest(Filter(rows, o), Select(rows, o), left)
    ensures var n := |Filter(rows, o)|;
            |Select(rows, o)| == if o.limit.Some? && o.limit.value < n then o.limit.value else n
    ensures forall row :: row in Filter(rows, o) <==> row in rows && Matches(row, o)
  {
    var kept := Filter(rows, o);
    forall row: Row ensures row in kept <==> row in rows && Matches(row, o) {
      FilterKeeps(rows, o, row);
      assert (row in kept <==> row in multiset(kept)) && (row in rows <==> row in multiset(rows));
    }
    left := TopOfSorted(kept, o.limit);
  }

  lemma TopOfSorted(kept: seq<Row>, limit: Option<nat>) returns (left: seq<Row>)
    ensures IsNewest(kept, Slice(Sort(Newest, kept), limit), left)
    ensures |Slice(Sort(Newest, kept), limit)|
         == if limit.Some? && limit.value < |kept| then limit.value else |kept|
  {
    var sorted := Sort(Newest, kept);
    SortKeepsPromises(Newest, kept);
    hide Sort;
    assert |multiset(sorted)| == |multiset(kept)|;
    var n := if limit.Some? && limit.value < |sorted| then limit.value else |sorted|;
    left := sorted[n..];
    assert sorted == sorted[..n] + left && sorted[..|sorted|] == sorted;
    NewestFirst(sorted, n);
  }

  lemma NewestFirst(sorted: seq<Row>, n: nat)
    requires Sorted(Newest, sorted) && n <= |sorted|
    ensures forall i, j | 0 <= i < j < n :: sorted[i].createdAt >= sorted[j].createdAt
    ensures forall x, y | x in sorted[..n] && y in sorted[n..] :: x.createdAt >= y.createdAt
  {
    forall i, j | 0 <= i < j < |sorted| ensures sorted[i].createdAt >= sorted[j].createdAt {
      assert Newest(sorted[i]) <= Newest(sorted[j]);
    }
    forall x, y | x in sorted[..n] && y in sorted[n..] ensures x.createdAt >= y.createdAt {
      var i :| 0 <= i < n && sorted[i] == x;
      var j :| n <= j < |sorted| && sorted[j] == y;
    }
  }

  /** Rows of one time come in store order, so raising the limit only adds rows at the end and
      the choice among equals is fixed. */
  lemma LimitOnlyExtends(rows: seq<Row>, o: Options, larger: Options)
    requires larger == o.(limit := larger.limit)
    requires o.limit.Some? && (larger.limit.Some? ==> o.limit.value <= larger.limit.value)
    ensures Select(rows, o) <= Select(rows, larger)
    ensures Sorted(Newest, Sort(Newest, Filter(rows, o)))
         && StableRearrangement(Newest, Filter(rows, o), Sort(Newest, Filter(rows, o)))
  {
    SameFilter(rows, o, larger);
    SortKeepsPromises(Newest, Filter(rows, o));
    hide Sort, Filter;
  }

  lemma {:induction false} SameFilter(rows: seq<Row>, o: Options, larger: Options)
    requires larger == o.(limit := larger.limit)
    ensures Filter(rows, o) == Filter(rows, larger)
  {
    if rows != [] {
      SameFilter(rows[1..], o, larger);
    }
  }

  /** A limit is accepted when it is positive and then floored: it is 0 exactly when the last
      `--limit` is below 1, and no row is selected exactly then or when none matches. */
  lemma LimitIsZero(env: Env, settings: seq<Setting>, rows: seq<Row>)
    requires AllValid(env, settings)
    ensures var o := SetAll(env, Defaults(env), settings);
            var last := Last(Values(settings, Limit));
            && Parse(env, Defaults(env), Render(settings)) == Done(o)
            && (o.limit == Some(0)
                <==> last.Some? && env.number(last.value).Some? && env.number(last.value).value < 1.0)
            && (Select(rows, o) == [] <==> o.limit == Some(0) || Filter(rows, o) == [])
  {
    var o := SetAll(env, Defaults(env), settings);
    ParseRendered(env, Defaults(env), settings);
    ParsedIsExplained(env, settings);
    assert Field(env, Limit, Values(settings, Limit), o);
    var left := SelectIsTopK(rows, o);
    hide Parse, Render, Values, SetAll, Sort, Filter;
  }
}

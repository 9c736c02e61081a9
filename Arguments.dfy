/** The command-line interface of the notification script: the table of
    options `build_arguments` declares and the parser it fills, one
    `add_argument` call per row. The attribute each option is stored under
    (its destination) and its default are what the rest of the script
    reads. */
module Arguments {
  import opened Wrappers

  /** A value in the parsed namespace: the text of an ordinary option or the
      truth value of a flag. */
  datatype Value = Str(s: string) | Flag(b: bool)

  /** Python's `str()` of a value, which is also what formatting it with an
      empty format specification gives. */
  function Text(v: Value): string {
    match v
    case Str(s) => s
    case Flag(b) => if b then "True" else "False"
  }

  /** Python truthiness: a non-empty string, or `True`. */
  predicate Truthy(v: Value) {
    match v
    case Str(s) => s != ""
    case Flag(b) => b
  }

  /** The two argparse actions the table uses: `store` (argparse's default
      when no action is named) and `store_true`. */
  datatype ActionKind = Store | StoreTrue

  /** One row of the table: short option, long option, help text, default,
      and the action, absent (`None`) for an ordinary option. */
  datatype ArgSpec = ArgSpec(short: string, long: string, help: string, default: Value, action: Option<ActionKind>)

  /** What `add_argument` records: the option strings, the destination
      derived from them, the help text, the default and the action. */
  datatype Action = Action(options: seq<string>, dest: string, help: string, default: Value, kind: ActionKind)

  const ARGUMENTS: seq<ArgSpec> := [
    ArgSpec("-servn", "--server_name", "Server Name", Str(""), None),
    ArgSpec("-ds", "--datestamp", "Date", Str(""), None),
    ArgSpec("-med", "--media_type", "Media type (e.g., movie, episode)", Str(""), None),
    ArgSpec("-tt", "--title", "Media title", Str(""), None),
    ArgSpec("-sn", "--show_name", "TV show name", Str(""), None),
    ArgSpec("-ena", "--episode_name", "Episode name", Str(""), None),
    ArgSpec("-ssn", "--season_num", "Season number", Str(""), None),
    ArgSpec("-enu", "--episode_num", "Episode number", Str(""), None),
    ArgSpec("-dur", "--duration", "Duration", Str(""), None),
    ArgSpec("-genres", "--genres", "Genres", Str(""), None),
    ArgSpec("-rating", "--rating", "Rating", Str(""), None),
    ArgSpec("-summary", "--summary", "Summary", Str(""), None),
    ArgSpec("-year", "--year", "Release year", Str(""), None),
    ArgSpec("-lname", "--library_name", "Library name", Str(""), None),
    ArgSpec("-pos", "--poster", "Poster URL", Str(""), None),
    ArgSpec("-cr", "--content_rating", "Content Rating", Str(""), None),
    ArgSpec("-st", "--studio", "Studio", Str(""), None),
    ArgSpec("-di", "--directors", "Directors", Str(""), None),
    ArgSpec("-ac", "--actors", "Actors", Str(""), None),
    ArgSpec("-dt", "--duration_time", "Duration Time", Str(""), None),
    ArgSpec("-vw", "--video_width", "Video Width", Str(""), None),
    ArgSpec("-vh", "--video_height", "Video Height", Str(""), None),
    ArgSpec("-vr", "--video_resolution", "Video Resolution", Str(""), None),
    ArgSpec("-fs", "--file_size", "File Size", Str(""), None),
    ArgSpec("-sy", "--show_year", "Show Year", Str(""), None),
    ArgSpec("-log", "--log_enabled", "Enable logging", Flag(false), Some(StoreTrue)),
    ArgSpec("-auth", "--auth", "Enable Authorization header", Flag(false), Some(StoreTrue))
  ]

  /** argparse's test for a long option string: its second character is
      also a dash. */
  predicate IsLongOption(option: string) {
    |option| > 1 && option[1] == '-'
  }

  /** `option.lstrip('-')`. */
  function StripDashes(option: string): string {
    if option != [] && option[0] == '-' then StripDashes(option[1..]) else option
  }

  /** `name.replace('-', '_')`. */
  function Underscored(name: string): string {
    seq(|name|, i requires 0 <= i < |name| => if name[i] == '-' then '_' else name[i])
  }

  /** argparse's destination for an option: its first long option string
      when it has one, otherwise its first option string, without the
      leading dashes and with inner dashes turned into underscores. */
  function Dest(short: string, long: string): (d: string)
    ensures forall i :: 0 <= i < |d| ==> d[i] != '-'
  {
    Underscored(StripDashes(if IsLongOption(short) then short else if IsLongOption(long) then long else short))
  }

  /** The record `add_argument` makes for one row; a row without an action
      gets argparse's default, `store`. */
  function Register(spec: ArgSpec): (a: Action)
    ensures a.options == [spec.short, spec.long] && a.dest == Dest(spec.short, spec.long)
    ensures a.help == spec.help && a.default == spec.default
    ensures spec.action.None? ==> a.kind == Store
    ensures spec.action.Some? ==> a.kind == spec.action.value
  {
    Action([spec.short, spec.long], Dest(spec.short, spec.long), spec.help, spec.default,
      match spec.action case None => Store case Some(kind) => kind)
  }

  function Registrations(specs: seq<ArgSpec>): seq<Action> {
    seq(|specs|, i requires 0 <= i < |specs| => Register(specs[i]))
  }

  /** The namespace `parse_args` returns for an empty command line: each
      destination bound to the default of the first action that names it. */
  function DefaultsOf(actions: seq<Action>): map<string, Value> {
    if actions == [] then map[]
    else DefaultsOf(actions[1..])[actions[0].dest := actions[0].default]
  }

  /** Every destination of an action is bound in the default namespace. */
  lemma {:induction false} DefaultsOfHas(actions: seq<Action>, i: nat)
    requires i < |actions|
    ensures actions[i].dest in DefaultsOf(actions)
  {
    if i > 0 {
      DefaultsOfHas(actions[1..], i - 1);
    }
  }

  /** Nothing but a destination of an action is bound there. */
  lemma {:induction false} DefaultsOfOnly(actions: seq<Action>, d: string)
    requires d in DefaultsOf(actions)
    ensures exists i :: 0 <= i < |actions| && actions[i].dest == d
  {
    if d != actions[0].dest {
      DefaultsOfOnly(actions[1..], d);
      var j :| 0 <= j < |actions[1..]| && actions[1..][j].dest == d;
      assert actions[j + 1].dest == d;
    }
  }

  /** The parser `build_arguments` creates and fills; its list of actions
      grows by one with every `add_argument` call. The automatic `-h`
      option is not part of this model. */
  class ArgumentParser {
    var actions: seq<Action>

    constructor ()
      ensures actions == []
    {
      actions := [];
    }

    method AddArgument(short: string, long: string, help: string, default: Value, kind: ActionKind)
      modifies this
      ensures actions == old(actions) + [Action([short, long], Dest(short, long), help, default, kind)]
    {
      actions := actions + [Action([short, long], Dest(short, long), help, default, kind)];
    }

    /** What `parse_args` yields when the command line gives no option. */
    function Defaults(): map<string, Value>
      reads this
    {
      DefaultsOf(actions)
    }
  }

  /** `build_arguments` up to the parse: one `add_argument` call per row,
      in table order, passing the action only when the row names one. */
  method BuildArguments() returns (parser: ArgumentParser)
    ensures fresh(parser)
    ensures parser.actions == Registrations(ARGUMENTS)
    ensures parser.Defaults() == DefaultNamespace()
  {
    parser := new ArgumentParser();
    for i := 0 to |ARGUMENTS|
      invariant parser.actions == Registrations(ARGUMENTS[..i])
    {
      RegistrationsPrefix(ARGUMENTS, i);
      var spec := ARGUMENTS[i];
      match spec.action
      case Some(kind) =>
        parser.AddArgument(spec.short, spec.long, spec.help, spec.default, kind);
      case None =>
        parser.AddArgument(spec.short, spec.long, spec.help, spec.default, Store);
    }
    Whole(ARGUMENTS);
  }

  lemma RegistrationsPrefix(specs: seq<ArgSpec>, i: nat)
    requires i < |specs|
    ensures Registrations(specs[..i + 1]) == Registrations(specs[..i]) + [Register(specs[i])]
  {
    var a, b := Registrations(specs[..i + 1]), Registrations(specs[..i]) + [Register(specs[i])];
    assert |a| == |b|;
    forall k | 0 <= k < |a| ensures a[k] == b[k] {
    }
  }

  lemma Whole<T>(s: seq<T>)
    ensures s[..|s|] == s
  {
  }

  /** The default an action of each kind has in the table: the empty string
      for an ordinary option, `False` for a flag. */
  function Blank(kind: ActionKind): Value {
    match kind
    case Store => Str("")
    case StoreTrue => Flag(false)
  }

  /** Every row's default is the blank value of its action. */
  lemma TableDefaultsBlank()
    ensures forall i :: 0 <= i < |ARGUMENTS| ==> Register(ARGUMENTS[i]).default == Blank(Register(ARGUMENTS[i]).kind)
  {
  }

  /** When every action's default is blank, so is every value of the
      default namespace. */
  lemma {:induction false} DefaultsOfBlank(actions: seq<Action>)
    requires forall i :: 0 <= i < |actions| ==> actions[i].default == Blank(actions[i].kind)
    ensures forall d :: d in DefaultsOf(actions) ==> DefaultsOf(actions)[d] in {Str(""), Flag(false)}
  {
    if actions != [] {
      DefaultsOfBlank(actions[1..]);
    }
  }

  /** The destination named by the first action that names it is bound to
      that action's default. */
  lemma {:induction false} DefaultsOfAt(actions: seq<Action>, i: nat)
    requires i < |actions|
    requires forall j :: 0 <= j < i ==> actions[j].dest != actions[i].dest
    ensures actions[i].dest in DefaultsOf(actions)
    ensures DefaultsOf(actions)[actions[i].dest] == actions[i].default
  {
    if i > 0 {
      DefaultsOfAt(actions[1..], i - 1);
    }
  }

  /** The namespace an empty command line produces. */
  function DefaultNamespace(): map<string, Value> {
    DefaultsOf(Registrations(ARGUMENTS))
  }

  /** With no option given, every string option is `''` and every flag
      `False`: nothing in the namespace is truthy. */
  lemma DefaultNamespaceBlank()
    ensures forall d :: d in DefaultNamespace() ==> DefaultNamespace()[d] in {Str(""), Flag(false)}
    ensures forall d :: d in DefaultNamespace() ==> !Truthy(DefaultNamespace()[d])
  {
    var actions := Registrations(ARGUMENTS);
    TableDefaultsBlank();
    DefaultsOfBlank(actions);
  }

  /** Every row's destination is an attribute of the namespace. */
  lemma DefaultNamespaceKeys()
    ensures forall i :: 0 <= i < |ARGUMENTS| ==> Register(ARGUMENTS[i]).dest in DefaultNamespace()
  {
    var actions := Registrations(ARGUMENTS);
    forall i | 0 <= i < |ARGUMENTS| ensures Register(ARGUMENTS[i]).dest in DefaultNamespace() {
      DefaultsOfHas(actions, i);
    }
  }

  /** Two leading dashes come off a long option. */
  lemma StripLong(name: string)
    requires name != [] && name[0] != '-'
    ensures StripDashes("--" + name) == name
  {
    var once, twice := "-" + name, "--" + name;
    assert twice[0] == '-' && twice[1..] == once;
    assert once[0] == '-' && once[1..] == name;
    assert StripDashes(name) == name;
    assert StripDashes(once) == name;
  }

  /** A long option `--name` whose name holds no dash is stored under
      `name` when the short option is a short one. */
  lemma DestOfLong(short: string, name: string)
    requires !IsLongOption(short)
    requires name != [] && forall i :: 0 <= i < |name| ==> name[i] != '-'
    ensures Dest(short, "--" + name) == name
  {
    StripLong(name);
  }

  lemma RowDest(i: nat, name: string)
    requires i < |ARGUMENTS| && ARGUMENTS[i].long == "--" + name
    requires !IsLongOption(ARGUMENTS[i].short)
    requires name != [] && forall k :: 0 <= k < |name| ==> name[k] != '-'
    ensures Register(ARGUMENTS[i]).dest == name
    ensures name in DefaultNamespace()
  {
    DestOfLong(ARGUMENTS[i].short, name);
    DefaultsOfHas(Registrations(ARGUMENTS), i);
  }

  /** The attributes the main block reads exist with no option given. */
  lemma MediaTypeDefault()
    ensures "media_type" in DefaultNamespace()
  {
    assert ARGUMENTS[2].short == "-med";
    assert ARGUMENTS[2].long == "--" + "media_type";
    RowDest(2, "media_type");
  }

  lemma PosterDefault()
    ensures "poster" in DefaultNamespace()
  {
    assert ARGUMENTS[14].short == "-pos";
    assert ARGUMENTS[14].long == "--" + "poster";
    RowDest(14, "poster");
  }

  lemma AuthDefault()
    ensures "auth" in DefaultNamespace()
  {
    assert ARGUMENTS[26].short == "-auth";
    assert ARGUMENTS[26].long == "--" + "auth";
    RowDest(26, "auth");
  }
}

/** The message templates and the part of Python's `str.format_map` they
    rely on. A template is a sequence of literal text and `{name}`
    replacement fields; `Source` writes it as the format string the script
    holds, `FormatMap` interprets such a string against a mapping that
    behaves like `defaultdict(str, ...)`, and `Render` is the direct
    meaning of a template. */
module Templates {
  import opened Wrappers
  import opened Arguments

  /** The attributes of the parsed namespace the templates name. */
  datatype FieldName =
    | Title | Year | Duration | Genres | Actors | Rating | Summary
    | ShowName | ShowYear | SeasonNum | EpisodeNum | EpisodeName

  /** The attribute a field names, as written inside the braces. */
  function Key(f: FieldName): string {
    match f
    case Title => "title"
    case Year => "year"
    case Duration => "duration"
    case Genres => "genres"
    case Actors => "actors"
    case Rating => "rating"
    case Summary => "summary"
    case ShowName => "show_name"
    case ShowYear => "show_year"
    case SeasonNum => "season_num"
    case EpisodeNum => "episode_num"
    case EpisodeName => "episode_name"
  }

  datatype Token = Literal(text: string) | Field(name: FieldName)

  type Template = seq<Token>

  /** The `ValueError`s `format_map` raises on the strings it is given,
      and the features of the format mini-language outside this model
      (attribute and index access, conversions, format specifications,
      nested fields, field names that may be non-ASCII numbers). */
  datatype FormatError =
    | SingleOpen      // a `{` that ends the string
    | ExpectedClose   // a `{` whose field is never closed
    | SingleClose     // a `}` that is neither doubled nor closing a field
    | UnexpectedOpen  // a `{` inside a field name
    | PositionalField // `{}` or `{0}`: format_map has no positional arguments
    | NotModelled(field: string)

  predicate IsDigit(c: char) {
    '0' <= c <= '9'
  }

  predicate AllDigits(s: string) {
    forall i :: 0 <= i < |s| ==> IsDigit(s[i])
  }

  /** A character Python may read as a decimal digit of a field number:
      an ASCII digit, or any non-ASCII character (whether it is one
      depends on the Unicode database, which is not part of this model). */
  predicate MaybeDecimal(c: char) {
    IsDigit(c) || c as int >= 0x80
  }

  predicate AllMaybeDecimal(s: string) {
    forall i :: 0 <= i < |s| ==> MaybeDecimal(s[i])
  }

  /** Characters that, inside a field, start something beyond a plain key. */
  predicate IsSpecial(c: char) {
    c == '.' || c == '[' || c == '!' || c == ':' || c == '{' || c == '}'
  }

  /** Characters that end the name part of a field. */
  predicate IsNameStop(c: char) {
    c == '{' || c == '[' || c == '}' || c == ':' || c == '!'
  }

  /** A field that `format_map` resolves by looking the whole name up as a
      key: not empty, surely not a number, and none of the special
      characters. */
  predicate IsKeyName(name: string) {
    name != [] && !AllMaybeDecimal(name) && forall i :: 0 <= i < |name| ==> !IsSpecial(name[i])
  }

  /** Where the name part of a field ends: at the first `{`, `[`, `}`, `:`
      or `!`, or at the end of the field. */
  function NameEnd(field: string): (r: nat)
    ensures r <= |field|
    ensures forall i :: 0 <= i < r ==> !IsNameStop(field[i])
    ensures r < |field| ==> IsNameStop(field[r])
  {
    if field == [] then 0
    else if IsNameStop(field[0]) then 0
    else 1 + NameEnd(field[1..])
  }

  /** `defaultdict(str, namespace)[name]`, formatted: the value's text when
      the key is there, the empty string when it is not. */
  function Lookup(fields: map<string, Value>, name: string): (r: string)
    ensures name !in fields ==> r == ""
    ensures name in fields ==> r == Text(fields[name])
  {
    if name in fields then Text(fields[name]) else ""
  }

  /** Literal text as it appears in a format string: braces doubled. */
  function Escape(s: string): string {
    if s == [] then []
    else if s[0] == '{' || s[0] == '}' then [s[0], s[0]] + Escape(s[1..])
    else [s[0]] + Escape(s[1..])
  }

  /** The format string a template is written as. */
  function Source(t: Template): string {
    if t == [] then []
    else
      match t[0]
      case Literal(text) => Escape(text) + Source(t[1..])
      case Field(name) => "{" + Key(name) + "}" + Source(t[1..])
  }

  /** What a template means: literal text kept, each field replaced by the
      looked-up value, in one pass. */
  function Render(t: Template, fields: map<string, Value>): string {
    if t == [] then []
    else
      match t[0]
      case Literal(text) => text + Render(t[1..], fields)
      case Field(name) => Lookup(fields, Key(name)) + Render(t[1..], fields)
  }

  /** The template with every field deleted. */
  function Literals(t: Template): string {
    if t == [] then []
    else
      match t[0]
      case Literal(text) => text + Literals(t[1..])
      case Field(_) => Literals(t[1..])
  }

  function Prepend(s: string, r: Result<string, FormatError>): Result<string, FormatError> {
    match r
    case Success(x) => Success(s + x)
    case Failure(e) => Failure(e)
  }

  /** `fmt.format_map(defaultdict(str, fields))`, read left to right: a
      doubled brace stands for itself, `{name}` for the looked-up value,
      any other character for itself; the first malformed construct is the
      error raised. After a single `{` the field name is read up to its
      first `{`, `[`, `}`, `:` or `!`: a `{` there is an error, and a field
      beyond a plain key is outside the model. */
  function FormatMap(fmt: string, fields: map<string, Value>): (r: Result<string, FormatError>)
    ensures BraceFree(fmt) ==> r == Success(fmt)
    decreases |fmt|
  {
    if fmt == [] then Success([])
    else if fmt[0] == '{' then
      if |fmt| >= 2 && fmt[1] == '{' then Prepend("{", FormatMap(fmt[2..], fields))
      else if |fmt| == 1 then Failure(SingleOpen)
      else
        var e := NameEnd(fmt[1..]);
        if e == |fmt| - 1 then Failure(ExpectedClose)
        else if fmt[e + 1] == '{' then Failure(UnexpectedOpen)
        else if fmt[e + 1] != '}' then Failure(NotModelled(fmt[1..e + 1]))
        else
          var name := fmt[1..e + 1];
          if AllDigits(name) then Failure(PositionalField)
          else if IsKeyName(name) then Prepend(Lookup(fields, name), FormatMap(fmt[e + 2..], fields))
          else Failure(NotModelled(name))
    else if fmt[0] == '}' then
      if |fmt| >= 2 && fmt[1] == '}' then Prepend("}", FormatMap(fmt[2..], fields))
      else Failure(SingleClose)
    else
      assert BraceFree(fmt) ==> BraceFree(fmt[1..]);
      assert [fmt[0]] + fmt[1..] == fmt;
      Prepend([fmt[0]], FormatMap(fmt[1..], fields))
  }

  lemma PrependPrepend(a: string, b: string, r: Result<string, FormatError>)
    ensures Prepend(a, Prepend(b, r)) == Prepend(a + b, r)
  {
    if r.Success? {
      assert a + (b + r.value) == (a + b) + r.value;
    }
  }

  /** Escaped literal text in front of the rest of a format string is
      output unchanged, whatever braces it holds. */
  lemma {:induction false} FormatEscaped(s: string, rest: string, fields: map<string, Value>)
    ensures FormatMap(Escape(s) + rest, fields) == Prepend(s, FormatMap(rest, fields))
  {
    if s == [] {
      assert Escape(s) + rest == rest;
      if FormatMap(rest, fields).Success? {
        assert s + FormatMap(rest, fields).value == FormatMap(rest, fields).value;
      }
    } else {
      FormatEscaped(s[1..], rest, fields);
      FormatEscapedStep(s, rest, fields);
    }
  }

  lemma FormatEscapedStep(s: string, rest: string, fields: map<string, Value>)
    requires s != []
    requires FormatMap(Escape(s[1..]) + rest, fields) == Prepend(s[1..], FormatMap(rest, fields))
    ensures FormatMap(Escape(s) + rest, fields) == Prepend(s, FormatMap(rest, fields))
  {
    var tail := Escape(s[1..]) + rest;
    EscapeCons(s, rest);
    if s[0] == '{' || s[0] == '}' {
      FormatBrace(s[0], tail, fields);
    } else {
      FormatPlain(s[0], tail, fields);
    }
    PrependPrepend([s[0]], s[1..], FormatMap(rest, fields));
    assert [s[0]] + s[1..] == s;
  }

  lemma EscapeCons(s: string, rest: string)
    requires s != []
    ensures Escape(s) + rest == (if s[0] == '{' || s[0] == '}' then [s[0], s[0]] else [s[0]]) + (Escape(s[1..]) + rest)
  {
  }

  /** A doubled brace stands for one brace. */
  lemma FormatBrace(c: char, tail: string, fields: map<string, Value>)
    requires c == '{' || c == '}'
    ensures FormatMap([c, c] + tail, fields) == Prepend([c], FormatMap(tail, fields))
  {
    var f := [c, c] + tail;
    assert f[0] == c && f[1] == c;
    assert f[2..] == tail;
  }

  /** Any character other than a brace stands for itself. */
  lemma FormatPlain(c: char, tail: string, fields: map<string, Value>)
    requires c != '{' && c != '}'
    ensures FormatMap([c] + tail, fields) == Prepend([c], FormatMap(tail, fields))
  {
    var f := [c] + tail;
    assert f[0] == c;
    assert f[1..] == tail;
  }

  /** A field written `{name}` in front of the rest of a format string is
      replaced by the looked-up value. */
  lemma FormatField(name: string, rest: string, fields: map<string, Value>)
    requires IsKeyName(name)
    ensures FormatMap("{" + name + "}" + rest, fields) == Prepend(Lookup(fields, name), FormatMap(rest, fields))
  {
    var f := "{" + name + "}" + rest;
    var j := |name| + 1;
    assert f[1..] == name + "}" + rest;
    NameEndAt(f[1..], |name|);
    assert f[1..j] == name;
    assert f[j + 1..] == rest;
  }

  /** The name part ends at the first stop character. */
  lemma NameEndAt(field: string, k: nat)
    requires k < |field| && IsNameStop(field[k])
    requires forall i :: 0 <= i < k ==> !IsNameStop(field[i])
    ensures NameEnd(field) == k
  {
  }

  /** Every name a template uses is a plain key for `format_map`. */
  lemma KeyIsName(f: FieldName)
    ensures IsKeyName(Key(f))
  {
    match f
    case Title => LowerCaseName("title");
    case Year => LowerCaseName("year");
    case Duration => LowerCaseName("duration");
    case Genres => LowerCaseName("genres");
    case Actors => LowerCaseName("actors");
    case Rating => LowerCaseName("rating");
    case Summary => LowerCaseName("summary");
    case ShowName => LowerCaseName("show_name");
    case ShowYear => LowerCaseName("show_year");
    case SeasonNum => LowerCaseName("season_num");
    case EpisodeNum => LowerCaseName("episode_num");
    case EpisodeName => LowerCaseName("episode_name");
  }

  /** A name of lower-case letters and underscores that starts with a
      letter is looked up as a key. */
  lemma LowerCaseName(s: string)
    requires s != [] && 'a' <= s[0] <= 'z'
    requires forall i :: 0 <= i < |s| ==> 'a' <= s[i] <= 'z' || s[i] == '_'
    ensures IsKeyName(s)
  {
    assert !MaybeDecimal(s[0]);
  }

  /** Rendering never fails: the format string of a template, given to
      `format_map`, yields exactly the template's meaning, whatever the
      values hold. */
  lemma {:induction false} FormatSource(t: Template, fields: map<string, Value>)
    ensures FormatMap(Source(t), fields) == Success(Render(t, fields))
  {
    if t != [] {
      FormatSource(t[1..], fields);
      match t[0]
      case Literal(text) =>
        FormatEscaped(text, Source(t[1..]), fields);
      case Field(name) =>
        KeyIsName(name);
        FormatField(Key(name), Source(t[1..]), fields);
    }
  }

  predicate BraceFree(s: string) {
    forall i :: 0 <= i < |s| ==> s[i] != '{' && s[i] != '}'
  }

  lemma BraceFreeConcat(a: string, b: string)
    requires BraceFree(a) && BraceFree(b)
    ensures BraceFree(a + b)
  {
    assert forall i :: |a| <= i < |a + b| ==> (a + b)[i] == b[i - |a|];
  }

  predicate LiteralsBraceFree(t: Template) {
    forall i :: 0 <= i < |t| ==> t[i].Literal? ==> BraceFree(t[i].text)
  }

  /** No replacement field survives rendering: when the literal text and
      the supplied values hold no brace, neither does the output. Values
      are inserted as they are, never scanned for fields again. */
  lemma {:induction false} RenderBraceFree(t: Template, fields: map<string, Value>)
    requires LiteralsBraceFree(t)
    requires forall name :: name in fields ==> BraceFree(Text(fields[name]))
    ensures BraceFree(Render(t, fields))
  {
    if t != [] {
      assert forall i :: 1 <= i < |t| ==> t[1..][i - 1] == t[i];
      RenderBraceFree(t[1..], fields);
      match t[0]
      case Literal(text) =>
        BraceFreeConcat(text, Render(t[1..], fields));
      case Field(name) =>
        BraceFreeConcat(Lookup(fields, Key(name)), Render(t[1..], fields));
    }
  }

  /** With every field empty or absent, the output is the template's
      literal text alone, with every newline and space in place. */
  lemma {:induction false} RenderAllEmpty(t: Template, fields: map<string, Value>)
    requires forall name :: name in fields ==> Text(fields[name]) == ""
    ensures Render(t, fields) == Literals(t)
  {
    if t != [] {
      RenderAllEmpty(t[1..], fields);
      match t[0]
      case Literal(text) =>
      case Field(name) =>
        assert Lookup(fields, Key(name)) == "";
        assert "" + Render(t[1..], fields) == Render(t[1..], fields);
    }
  }

  /** The replacement fields of a template, in order of appearance. */
  function FieldNames(t: Template): seq<string> {
    if t == [] then []
    else
      match t[0]
      case Literal(_) => FieldNames(t[1..])
      case Field(name) => [Key(name)] + FieldNames(t[1..])
  }

  /** Only the fields a template names matter: two namespaces that agree
      on them render it alike, whatever else they hold. */
  lemma {:induction false} RenderNamedOnly(t: Template, a: map<string, Value>, b: map<string, Value>)
    requires forall k :: 0 <= k < |FieldNames(t)| ==> Lookup(a, FieldNames(t)[k]) == Lookup(b, FieldNames(t)[k])
    ensures Render(t, a) == Render(t, b)
  {
    if t != [] {
      match t[0]
      case Literal(_) =>
        assert FieldNames(t) == FieldNames(t[1..]);
        RenderNamedOnly(t[1..], a, b);
      case Field(name) =>
        var names := FieldNames(t);
        assert names == [Key(name)] + FieldNames(t[1..]);
        assert Lookup(a, names[0]) == Lookup(b, names[0]);
        forall k | 0 <= k < |FieldNames(t[1..])|
          ensures Lookup(a, FieldNames(t[1..])[k]) == Lookup(b, FieldNames(t[1..])[k])
        {
          assert FieldNames(t[1..])[k] == names[k + 1];
        }
        RenderNamedOnly(t[1..], a, b);
    }
  }

  const MOVIE: Template := [
    Literal("\U{1F37F} *T\U{ED}tulo:* "), Field(Title), Literal(" ("), Field(Year),
    Literal(")\n\U{1F553} *Dura\U{E7}\U{E3}o:* "), Field(Duration),
    Literal(" minutos\n\U{1F3AD} *G\U{EA}nero:* "), Field(Genres), Literal(" "), Field(Actors),
    Literal(" "), Field(Rating), Literal(" "), Field(Summary)
  ]

  const EPISODE: Template := [
    Literal("\U{1F37F} *T\U{ED}tulo:* "), Field(ShowName), Literal(" ("), Field(Year),
    Literal(")\n\U{1F522} *Epis\U{F3}dio:* "), Field(SeasonNum), Literal("x"), Field(EpisodeNum),
    Literal(" - "), Field(EpisodeName),
    Literal("\n\U{1F553} *Dura\U{E7}\U{E3}o:* "), Field(Duration),
    Literal(" minutos\n\U{1F3AD} *G\U{EA}nero:* "), Field(Genres), Literal(" "), Field(Actors),
    Literal(" "), Field(Rating), Literal(" "), Field(Summary)
  ]

  const SHOW: Template := [
    Literal("\U{1F37F} *T\U{ED}tulo:* "), Field(ShowName), Literal(" ("), Field(ShowYear),
    Literal(")\n\U{1F3AD} *G\U{EA}nero:* "), Field(Genres), Literal(" "), Field(Actors),
    Literal(" "), Field(Rating), Literal(" "), Field(Summary)
  ]

  const SEASON: Template := [
    Literal("\U{1F37F} *T\U{ED}tulo:* "), Field(ShowName), Literal(" ("), Field(ShowYear),
    Literal(")\n\U{1F3AC} *Temporada:* "), Field(SeasonNum),
    Literal("\n\U{1F3AD} *G\U{EA}nero:* "), Field(Genres), Literal(" "), Field(Actors),
    Literal(" "), Field(Rating), Literal(" "), Field(Summary)
  ]

  /** The message template of each supported media type. */
  const TEMPLATES: map<string, Template> := map[
    "movie" := MOVIE, "episode" := EPISODE, "show" := SHOW, "season" := SEASON
  ]

  /** The script's own messages: whatever template is chosen, no brace
      and so no placeholder is left in the caption, provided the values
      hold none. */
  lemma TemplatesBraceFree(kind: string, fields: map<string, Value>)
    requires kind in TEMPLATES
    requires forall name :: name in fields ==> BraceFree(Text(fields[name]))
    ensures BraceFree(Render(TEMPLATES[kind], fields))
  {
    if kind == "movie" {
      MovieLiterals();
    } else if kind == "episode" {
      EpisodeLiterals();
    } else if kind == "show" {
      ShowLiterals();
    } else {
      SeasonLiterals();
    }
    RenderBraceFree(TEMPLATES[kind], fields);
  }

  lemma MovieLiterals()
    ensures LiteralsBraceFree(MOVIE)
  {
    assert |MOVIE| == 14;
    MovieLiteralsBefore();
    MovieLiteralsAfter();
  }

  lemma MovieLiteralsBefore()
    ensures forall i :: 0 <= i < 5 ==> MOVIE[i].Literal? ==> BraceFree(MOVIE[i].text)
  {
    assert BraceFree("\U{1F37F} *T\U{ED}tulo:* ");
    assert BraceFree(" (");
    assert BraceFree(")\n\U{1F553} *Dura\U{E7}\U{E3}o:* ");
  }

  lemma MovieLiteralsAfter()
    ensures forall i :: 5 <= i < 14 ==> MOVIE[i].Literal? ==> BraceFree(MOVIE[i].text)
  {
    assert BraceFree(" minutos\n\U{1F3AD} *G\U{EA}nero:* ");
    assert BraceFree(" ");
  }

  lemma EpisodeLiterals()
    ensures LiteralsBraceFree(EPISODE)
  {
    assert |EPISODE| == 20;
    EpisodeLiteralsBefore();
    EpisodeLiteralsAfter();
  }

  lemma EpisodeLiteralsBefore()
    ensures forall i :: 0 <= i < 10 ==> EPISODE[i].Literal? ==> BraceFree(EPISODE[i].text)
  {
    assert BraceFree("\U{1F37F} *T\U{ED}tulo:* ");
    assert BraceFree(" (");
    assert BraceFree(")\n\U{1F522} *Epis\U{F3}dio:* ");
    assert BraceFree("x");
    assert BraceFree(" - ");
  }

  lemma EpisodeLiteralsAfter()
    ensures forall i :: 10 <= i < 20 ==> EPISODE[i].Literal? ==> BraceFree(EPISODE[i].text)
  {
    assert BraceFree("\n\U{1F553} *Dura\U{E7}\U{E3}o:* ");
    assert BraceFree(" minutos\n\U{1F3AD} *G\U{EA}nero:* ");
    assert BraceFree(" ");
  }

  lemma ShowLiterals()
    ensures LiteralsBraceFree(SHOW)
  {
    assert |SHOW| == 12;
    ShowLiteralsBefore();
    ShowLiteralsAfter();
  }

  lemma ShowLiteralsBefore()
    ensures forall i :: 0 <= i < 6 ==> SHOW[i].Literal? ==> BraceFree(SHOW[i].text)
  {
    assert BraceFree("\U{1F37F} *T\U{ED}tulo:* ");
    assert BraceFree(" (");
    assert BraceFree(")\n\U{1F3AD} *G\U{EA}nero:* ");
  }

  lemma ShowLiteralsAfter()
    ensures forall i :: 6 <= i < 12 ==> SHOW[i].Literal? ==> BraceFree(SHOW[i].text)
  {
    assert BraceFree(" ");
  }

  lemma SeasonLiterals()
    ensures LiteralsBraceFree(SEASON)
  {
    assert |SEASON| == 14;
    SeasonLiteralsBefore();
    SeasonLiteralsAfter();
  }

  lemma SeasonLiteralsBefore()
    ensures forall i :: 0 <= i < 5 ==> SEASON[i].Literal? ==> BraceFree(SEASON[i].text)
  {
    assert BraceFree("\U{1F37F} *T\U{ED}tulo:* ");
    assert BraceFree(" (");
    assert BraceFree(")\n\U{1F3AC} *Temporada:* ");
  }

  lemma SeasonLiteralsAfter()
    ensures forall i :: 5 <= i < 14 ==> SEASON[i].Literal? ==> BraceFree(SEASON[i].text)
  {
    assert BraceFree("\n\U{1F3AD} *G\U{EA}nero:* ");
    assert BraceFree(" ");
  }

  lemma FieldKeysBound(f: FieldName)
    ensures Key(f) in DefaultNamespace()
  {
    match f
    case Title => TitleBound(f);
    case Year => YearBound(f);
    case Duration => DurationBound(f);
    case ShowYear => ShowYearBound(f);
    case Genres => GenresBound(f);
    case Actors => ActorsBound(f);
    case Rating => RatingBound(f);
    case Summary => SummaryBound(f);
    case ShowName => ShowNameBound(f);
    case SeasonNum => SeasonNumBound(f);
    case EpisodeNum => EpisodeNumBound(f);
    case EpisodeName => EpisodeNameBound(f);
  }

  lemma TitleBound(f: FieldName)
    requires f == Title
    ensures Key(f) in DefaultNamespace()
  {
    assert ARGUMENTS[3].short == "-tt";
    assert ARGUMENTS[3].long == "--" + "title";
    RowDest(3, "title");
  }

  lemma YearBound(f: FieldName)
    requires f == Year
    ensures Key(f) in DefaultNamespace()
  {
    assert ARGUMENTS[12].short == "-year";
    assert ARGUMENTS[12].long == "--" + "year";
    RowDest(12, "year");
  }

  lemma DurationBound(f: FieldName)
    requires f == Duration
    ensures Key(f) in DefaultNamespace()
  {
    assert ARGUMENTS[8].short == "-dur";
    assert ARGUMENTS[8].long == "--" + "duration";
    RowDest(8, "duration");
  }

  lemma ShowYearBound(f: FieldName)
    requires f == ShowYear
    ensures Key(f) in DefaultNamespace()
  {
    assert ARGUMENTS[24].short == "-sy";
    assert ARGUMENTS[24].long == "--" + "show_year";
    RowDest(24, "show_year");
  }

  lemma GenresBound(f: FieldName)
    requires f == Genres
    ensures Key(f) in DefaultNamespace()
  {
    assert ARGUMENTS[9].short == "-genres";
    assert ARGUMENTS[9].long == "--" + "genres";
    RowDest(9, "genres");
  }

  lemma ActorsBound(f: FieldName)
    requires f == Actors
    ensures Key(f) in DefaultNamespace()
  {
    assert ARGUMENTS[18].short == "-ac";
    assert ARGUMENTS[18].long == "--" + "actors";
    RowDest(18, "actors");
  }

  lemma RatingBound(f: FieldName)
    requires f == Rating
    ensures Key(f) in DefaultNamespace()
  {
    assert ARGUMENTS[10].short == "-rating";
    assert ARGUMENTS[10].long == "--" + "rating";
    RowDest(10, "rating");
  }

  lemma SummaryBound(f: FieldName)
    requires f == Summary
    ensures Key(f) in DefaultNamespace()
  {
    assert ARGUMENTS[11].short == "-summary";
    assert ARGUMENTS[11].long == "--" + "summary";
    RowDest(11, "summary");
  }

  lemma ShowNameBound(f: FieldName)
    requires f == ShowName
    ensures Key(f) in DefaultNamespace()
  {
    assert ARGUMENTS[4].short == "-sn";
    assert ARGUMENTS[4].long == "--" + "show_name";
    RowDest(4, "show_name");
  }

  lemma SeasonNumBound(f: FieldName)
    requires f == SeasonNum
    ensures Key(f) in DefaultNamespace()
  {
    assert ARGUMENTS[6].short == "-ssn";
    assert ARGUMENTS[6].long == "--" + "season_num";
    RowDest(6, "season_num");
  }

  lemma EpisodeNumBound(f: FieldName)
    requires f == EpisodeNum
    ensures Key(f) in DefaultNamespace()
  {
    assert ARGUMENTS[7].short == "-enu";
    assert ARGUMENTS[7].long == "--" + "episode_num";
    RowDest(7, "episode_num");
  }

  lemma EpisodeNameBound(f: FieldName)
    requires f == EpisodeName
    ensures Key(f) in DefaultNamespace()
  {
    assert ARGUMENTS[5].short == "-ena";
    assert ARGUMENTS[5].long == "--" + "episode_name";
    RowDest(5, "episode_name");
  }

  lemma TemplateKeys()
    ensures TEMPLATES.Keys == {"movie", "episode", "show", "season"}
  {
  }

  /** A value is inserted as it is: a year given as `{title}` is output as
      `{title}`, not replaced by the title. */
  lemma VerbatimValue()
    ensures FormatMap("{year}", map["year" := Str("{title}"), "title" := Str("X")]) == Success("{title}")
  {
    var fields := map["year" := Str("{title}"), "title" := Str("X")];
    KeyIsName(Year);
    FormatField("year", "", fields);
    assert "{" + "year" + "}" + "" == "{year}";
    assert Lookup(fields, "year") == "{title}";
    assert FormatMap("", fields) == Success("");
    assert "{title}" + "" == "{title}";
  }

  /** A `{` in a field name is an error as soon as it is read, whatever
      follows it: `{a{b}}` and `{a{b}` both raise it. */
  lemma OpenInName(name: string, rest: string, fields: map<string, Value>)
    requires name != [] && forall i :: 0 <= i < |name| ==> !IsNameStop(name[i])
    ensures FormatMap("{" + name + "{" + rest, fields) == Failure(UnexpectedOpen)
  {
    var f := "{" + name + "{" + rest;
    assert f[1..] == name + "{" + rest;
    NameEndAt(f[1..], |name|);
  }

  /** A field whose name runs to the end of the string is never closed. */
  lemma UnclosedField(name: string, fields: map<string, Value>)
    requires name != [] && forall i :: 0 <= i < |name| ==> !IsNameStop(name[i])
    ensures FormatMap("{" + name, fields) == Failure(ExpectedClose)
  {
    var f := "{" + name;
    assert f[1..] == name;
  }

  /** A name that may be a non-ASCII number is outside the model: U+0663,
      ARABIC-INDIC DIGIT THREE, reads as a position in Python. */
  lemma NonAsciiDigitName()
    ensures FormatMap("{\U{663}}", map[]) == Failure(NotModelled("\U{663}"))
  {
    var h := "{\U{663}}";
    NameEndAt(h[1..], 1);
    assert h[1..2] == "\U{663}";
  }
}

/** Binding of the statically known part of an expression ahead of delivery. */
module ShellBind {
  import opened Bytes
  import opened ShellExpression
  import opened ShellEval
  import opened ShellMeaning

  type Values = Name -> Option<seq<Byte>>

  datatype BindError =
    | TooDeep
    | NotStatic
    | NotSet(name: Name)
    | Required(name: Name)
    | Evaluation(error: Error)
    | NotText
    | Assigns

  /** Values at binding time, the LINEBUF setting they carry, and text validity. */
  datatype Environment = Environment(lookup: Values, linebuf: nat, isText: seq<Byte> -> bool)

  predicate IsDigits(s: string) {
    s != [] && forall i :: 0 <= i < |s| ==> '0' <= s[i] <= '9'
  }

  /** Names whose value only exists while a message is being delivered. */
  predicate RuntimeOnly(name: Name) {
    name == "$" || name == "?" || name == "_" || name == "-" || name == "LASTFOLDER" || name == "MATCH" ||
    (|name| > 5 && name[..5] == "MATCH" && IsDigits(name[5..]))
  }

  /** The adapter used to evaluate destination expressions. */
  function RuntimeContext(values: Values): Context {
    Context(SyntaxNesting,
            name => Ok(match values(name) case None => None case Some(bytes) => Some(VariableValue(bytes, 0))),
            (c, n) => Err(Unsupported(CommandPart)),
            (name, n) => Err(Unsupported(RegexQuotedPart)))
  }

  function PlainWorld(values: Values): World {
    World(name => Ok(values(name)),
          c => Err(Unsupported(CommandPart)),
          name => Err(Unsupported(RegexQuotedPart)))
  }

  lemma RuntimeAgrees(values: Values)
    ensures Agrees(RuntimeContext(values), PlainWorld(values))
  {
  }

  // ----- Binding -----

  function PushLiteral(parts: seq<Part>, text: seq<Byte>): seq<Part> {
    if text == [] then parts
    else if parts != [] && parts[|parts| - 1].Literal? then
      parts[..|parts| - 1] + [Literal(parts[|parts| - 1].text + text)]
    else parts + [Literal(text)]
  }

  function PushPart(parts: seq<Part>, part: Part): seq<Part> {
    if part.Literal? then PushLiteral(parts, part.text) else parts + [part]
  }

  function PushAll(parts: seq<Part>, more: seq<Part>): seq<Part> {
    if more == [] then parts else PushPart(PushAll(parts, more[..|more| - 1]), more[|more| - 1])
  }

  ghost function EvaluateStatic(part: Part, env: Environment): Result<seq<Byte>, BindError> {
    match EvalAt(Expression([part]), Min(env.linebuf, MAX_ASSIGNMENT_VALUE_LEN), 0, RuntimeContext(env.lookup), [])
    case Err(e) => Err(Evaluation(e))
    case Ok(st) =>
      if st.assignments != [] then Err(Assigns)
      else if !env.isText(st.output) then Err(NotText)
      else Ok(st.output)
  }

  ghost function Bind(e: Expression, env: Environment, nesting: nat): Result<Expression, BindError>
    decreases e, 1
  {
    if nesting > MAX_EXPANSION_DEPTH then Err(TooDeep)
    else
      var parts :- BindParts(e.parts, env, nesting);
      Ok(Expression(parts))
  }

  ghost function BindParts(parts: seq<Part>, env: Environment, nesting: nat): Result<seq<Part>, BindError>
    decreases parts, 0
  {
    if parts == [] then Ok([])
    else
      var done :- BindParts(parts[..|parts| - 1], env, nesting);
      BindPart(parts[|parts| - 1], env, nesting, done)
  }

  ghost function BindPart(part: Part, env: Environment, nesting: nat, done: seq<Part>): Result<seq<Part>, BindError>
    decreases part, 1
  {
    match part
    case Literal(text) => Ok(PushLiteral(done, text))
    case Variable(name, op) =>
      if op.IsValueTransform() then
        var bytes :- EvaluateStatic(part, env);
        Ok(PushLiteral(done, bytes))
      else if RuntimeOnly(name) then
        var bound :- BindOperation(part, env, nesting + 1);
        Ok(done + [Variable(name, bound)])
      else BindKnown(part, env, nesting, done)
    case RegexQuotedVariable(_) => Err(NotStatic)
    case Command(_) => Err(NotStatic)
    case PatternQuote(e) =>
      var bound :- Bind(e, env, nesting + 1);
      Ok(done + [PatternQuote(bound)])
  }

  /** A parameter whose value is known now: keep only what it selects. */
  ghost function BindKnown(part: Part, env: Environment, nesting: nat, done: seq<Part>): Result<seq<Part>, BindError>
    requires part.Variable?
    decreases part, 0
  {
    var op := part.operation;
    var value := env.lookup(part.name);
    if op.SelectedWord(value.Some?, value.Some? && value.value == []).Some? then
      var bound :- Bind(op.word, env, nesting + 1);
      Ok(PushAll(done, bound.parts))
    else if op.UsesValueWhenWordIsNotSelected() then
      if value.Some? then Ok(PushLiteral(done, value.value))
      else if op.ErrorIfUnsetOrEmpty? then Err(Required(part.name))
      else Err(NotSet(part.name))
    else Ok(done)
  }

  /** A parameter that only delivery can supply: bind its word, keep its operation. */
  ghost function BindOperation(part: Part, env: Environment, nesting: nat): Result<Operation, BindError>
    requires part.Variable?
    decreases part, 0
  {
    match part.operation
    case Value => Ok(Value)
    case Length => Ok(Length)
    case ErrorIfUnsetOrEmpty(message) => Ok(ErrorIfUnsetOrEmpty(message))
    case DefaultIfUnset(word) => var b :- Bind(word, env, nesting); Ok(DefaultIfUnset(b))
    case DefaultIfUnsetOrEmpty(word) => var b :- Bind(word, env, nesting); Ok(DefaultIfUnsetOrEmpty(b))
    case AlternateIfSet(word) => var b :- Bind(word, env, nesting); Ok(AlternateIfSet(b))
    case AlternateIfSetAndNotEmpty(word) => var b :- Bind(word, env, nesting); Ok(AlternateIfSetAndNotEmpty(b))
    case AssignIfUnsetOrEmpty(word) => var b :- Bind(word, env, nesting); Ok(AssignIfUnsetOrEmpty(b))
    case RemovePrefix(pattern, longest) => var b :- Bind(pattern, env, nesting); Ok(RemovePrefix(b, longest))
    case RemoveSuffix(pattern, longest) => var b :- Bind(pattern, env, nesting); Ok(RemoveSuffix(b, longest))
    case ChangeCase(pattern, direction, all) =>
      var b :- Bind(pattern, env, nesting); Ok(ChangeCase(b, direction, all))
  }

  // ----- What the theorems are about -----

  /** Both tables hold the same for every name that an evaluation of `e` may read. */
  predicate SameNames(e: Expression, a: Values, b: Values)
    decreases e, 1
  {
    forall i :: 0 <= i < |e.parts| ==> SameNamesIn(e.parts[i], a, b)
  }

  predicate SameNamesIn(part: Part, a: Values, b: Values)
    decreases part, 0
  {
    match part
    case Variable(name, op) => a(name) == b(name) && (op.Word().Some? ==> SameNames(op.Word().value, a, b))
    case PatternQuote(e) => SameNames(e, a, b)
    case _ => true
  }

  /** Both tables hold the same for every name of `e` that binding resolves, and
      for every name that a length, removal or case transform reads: transforms are
      evaluated when they are bound. */
  predicate SameWhenBound(e: Expression, a: Values, b: Values)
    decreases e, 1
  {
    forall i :: 0 <= i < |e.parts| ==> SameWhenBoundIn(e.parts[i], a, b)
  }

  predicate SameWhenBoundIn(part: Part, a: Values, b: Values)
    decreases part, 0
  {
    match part
    case Variable(name, op) =>
      if op.IsValueTransform() then SameNamesIn(part, a, b)
      else (RuntimeOnly(name) || a(name) == b(name)) && (op.Word().Some? ==> SameWhenBound(op.Word().value, a, b))
    case PatternQuote(e) => SameWhenBound(e, a, b)
    case _ => true
  }

  // ----- Expressions mean the same under tables that agree on their names -----

  lemma {:induction false} SameNamesMeaning(e: Expression, a: Values, b: Values, m: Assignments)
    requires SameNames(e, a, b)
    ensures Denote(e, PlainWorld(a), m) == Denote(e, PlainWorld(b), m)
    decreases e, 1
  {
    SameNamesPartsMeaning(e.parts, a, b, Meaning([], m));
  }

  lemma {:induction false} SameNamesPartsMeaning(parts: seq<Part>, a: Values, b: Values, m: Meaning)
    requires forall i :: 0 <= i < |parts| ==> SameNamesIn(parts[i], a, b)
    ensures DenoteParts(parts, PlainWorld(a), m) == DenoteParts(parts, PlainWorld(b), m)
    decreases parts, 0
  {
    if parts != [] {
      var init := parts[..|parts| - 1];
      SameNamesPartsMeaning(init, a, b, m);
      var mid := DenoteParts(init, PlainWorld(a), m);
      if mid.Ok? {
        SameNamesPartMeaning(parts[|parts| - 1], a, b, mid.value);
      }
    }
  }

  lemma {:induction false} SameNamesPartMeaning(part: Part, a: Values, b: Values, m: Meaning)
    requires SameNamesIn(part, a, b)
    ensures DenotePart(part, PlainWorld(a), m) == DenotePart(part, PlainWorld(b), m)
    decreases part, 0
  {
    match part
    case PatternQuote(e) => SameNamesMeaning(e, a, b, m.assignments);
    case Variable(name, op) =>
      assert Find(PlainWorld(a), m.assignments, name) == Find(PlainWorld(b), m.assignments, name);
      if op.Word().Some? {
        SameNamesMeaning(op.Word().value, a, b, m.assignments);
      }
    case _ =>
  }
}

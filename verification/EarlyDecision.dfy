/** Conditions decided from the header alone, before the body has been read. */
module EarlyDecision {
  import opened Bytes
  import opened RuntimeState
  import opened FoldNormalize
  import Utf8

  const MAX_MATCH_BYTES: nat := MAX_ASSIGNMENT_VALUE_LEN

  /** `MATCH` */
  const MATCH: Name := [77, 65, 84, 67, 72]

  /** A compiled expression: the capture groups of its match, the whole match first. */
  type Regex = seq<Byte> -> Option<seq<Option<(nat, nat)>>>

  /** What a structured field yields in order; a malformed part ends the visit. */
  datatype Item = Item(bytes: seq<Byte>) | Malformed

  /** What the parts of a message yield: nothing, or the values of the part that
      matched, each for `MATCH` or for a numbered name. */
  type PartSearch = (seq<Byte>, seq<Byte>) -> Result<Option<seq<(Option<nat>, seq<Byte>)>>, EvalError>

  /** `ShellExpanded` is the condition its expansion over the variables turns out to be. */
  datatype Kind =
    | ShellExpanded(resolve: State -> Result<Condition, EvalError>)
    | Multipart(parts: PartSearch)
    | HeaderRegex(header: Regex)
    | BodyRegex(body: Regex)
    | MessageRegex(message: Regex)
    | VariableRegex(name: Name, variable: Regex)
    | StructuredRegex(items: seq<Byte> -> seq<Item>, item: Regex)
    | Program
    | SmallerThan(below: nat)
    | LargerThan(above: nat)

  /** For a multipart condition the capture lists are those of its checks. */
  datatype Condition = Condition(negated: bool, kind: Kind, matchCaptures: seq<nat>, captureIndexes: seq<nat>)

  datatype EvalError = NotUtf8 | ValuesTooLarge | VariableTooLarge | BadRange | BadHeader | ExternalCondition | Unresolved

  datatype PartialMatch = Decided(answer: bool) | Deferred

  // ----- MATCH values -----

  predicate IsNumberedMatch(name: Name) {
    |MATCH| < |name| && name[..|MATCH|] == MATCH && forall i :: |MATCH| <= i < |name| ==> IsDigit(name[i])
  }

  function ClearNumbered(st: State): State {
    st.(values := map name | name in st.values :: if IsNumberedMatch(name) then Removed else st.values[name])
  }

  /** `clear_match_values`. */
  function ClearMatch(st: State): State {
    ClearNumbered(Assigned(st, MATCH, Removed))
  }

  function Group(groups: seq<Option<(nat, nat)>>, index: nat): Option<(nat, nat)> {
    if index < |groups| then groups[index] else None
  }

  /** The largest end among the selected groups, from `i` on. */
  function SelectedStart(groups: seq<Option<(nat, nat)>>, indexes: seq<nat>, i: nat): Option<nat>
    requires i <= |indexes|
    decreases |indexes| - i
  {
    if i == |indexes| then None
    else
      var rest := SelectedStart(groups, indexes, i + 1);
      var own := Group(groups, indexes[i]);
      if own.None? then rest
      else if rest.Some? && own.value.1 < rest.value then rest
      else Some(own.value.1)
  }

  function TextIn(input: seq<Byte>, start: nat, end: nat): Result<seq<Byte>, EvalError> {
    if !(start <= end <= |input|) then Err(BadRange)
    else if Utf8.IsUtf8(input[start..end]) then Ok(input[start..end])
    else Err(NotUtf8)
  }

  /** The numbered captures from `i` on and their total size. */
  function Captured(groups: seq<Option<(nat, nat)>>, indexes: seq<nat>, i: nat, input: seq<Byte>, st: State, size: nat)
      : Result<(State, nat), EvalError>
    requires i <= |indexes|
    decreases |indexes| - i
  {
    if i == |indexes| then Ok((st, size))
    else
      var range := Group(groups, indexes[i]);
      var text :- if range.None? then Ok([]) else TextIn(input, range.value.0, range.value.1);
      Captured(groups, indexes, i + 1, input, Assigned(st, MATCH + Decimal(i + 1), Text(text)), size + |text|)
  }

  /** `regex_matches`. */
  function RegexMatches(c: Condition, regex: Regex, input: seq<Byte>, st: State): Result<(bool, State), EvalError> {
    var groups := regex(input);
    if c.matchCaptures == [] && c.captureIndexes == [] then Ok((groups.Some?, st))
    else if groups.None? then Ok((false, ClearMatch(st)))
    else if c.negated then Ok((true, ClearMatch(st)))
    else
      var cleared := ClearNumbered(st);
      var start := SelectedStart(groups.value, c.matchCaptures, 0);
      var whole := Group(groups.value, 0);
      var matched :- if start.None? then Ok(None)
                     else if whole.None? then Err(BadRange)
                     else
                       var text :- TextIn(input, start.value, whole.value.1);
                       Ok(Some(text));
      var marked := if matched.None? then cleared else Assigned(cleared, MATCH, Text(matched.value));
      var all :- Captured(groups.value, c.captureIndexes, 0, input, marked,
                          if matched.None? then 0 else |matched.value|);
      if all.1 > MAX_MATCH_BYTES then Err(ValuesTooLarge) else Ok((true, all.0))
  }

  /** Visiting the items until one matches. */
  function AnyItem(c: Condition, regex: Regex, items: seq<Item>, i: nat, st: State): Result<(bool, State), EvalError>
    requires i <= |items|
    decreases |items| - i
  {
    if i == |items| then
      Ok((false, if c.matchCaptures != [] || c.captureIndexes != [] then ClearMatch(st) else st))
    else if items[i].Malformed? then Err(BadHeader)
    else
      var one :- RegexMatches(c, regex, items[i].bytes, st);
      if one.0 then Ok(one) else AnyItem(c, regex, items, i + 1, one.1)
  }

  function VariableMatches(c: Condition, name: Name, regex: Regex, st: State): Result<(bool, State), EvalError> {
    var found := Lookup(st, name, false);
    var text := if found.None? then [] else found.value;
    if |text| > MAX_ASSIGNMENT_VALUE_LEN then Err(VariableTooLarge) else RegexMatches(c, regex, text, st)
  }

  // ----- Multipart conditions -----

  function NamedMatch(number: Option<nat>): Name {
    if number.None? then MATCH else MATCH + Decimal(number.value)
  }

  /** Storing the values from `i` on. */
  function Stored(values: seq<(Option<nat>, seq<Byte>)>, i: nat, st: State): State
    requires i <= |values|
    decreases |values| - i
  {
    if i == |values| then st
    else Stored(values, i + 1, Assigned(st, NamedMatch(values[i].0), Text(values[i].1)))
  }

  function ValuesSize(values: seq<(Option<nat>, seq<Byte>)>, i: nat): nat
    requires i <= |values|
    decreases |values| - i
  {
    if i == |values| then 0 else |values[i].1| + ValuesSize(values, i + 1)
  }

  /** `matches_multipart`: it clears the MATCH values whenever nothing matches. */
  function MultipartMatches(c: Condition, parts: PartSearch, header: seq<Byte>, body: seq<Byte>, st: State)
      : Result<(bool, State), EvalError>
  {
    var found :- parts(header, body);
    if found.None? then Ok((false, ClearMatch(st)))
    else if c.negated then Ok((true, ClearMatch(st)))
    else if c.matchCaptures == [] && c.captureIndexes == [] then Ok((true, st))
    else if ValuesSize(found.value, 0) > MAX_MATCH_BYTES then Err(ValuesTooLarge)
    else Ok((true, Stored(found.value, 0, ClearNumbered(st))))
  }

  // ----- The two evaluations -----

  function Negated(c: Condition, r: Result<(bool, State), EvalError>): Result<(bool, State), EvalError> {
    if r.Ok? then Ok((r.value.0 != c.negated, r.value.1)) else r
  }

  function Early(c: Condition, r: Result<(bool, State), EvalError>): Result<(PartialMatch, State), EvalError> {
    if r.Ok? then Ok((Decided(r.value.0 != c.negated), r.value.1)) else Err(r.error)
  }

  /** `matches_headers`. */
  function MatchesHeaders(c: Condition, header: seq<Byte>, st: State): Result<(PartialMatch, State), EvalError> {
    match c.kind
    case HeaderRegex(regex) => Early(c, RegexMatches(c, regex, Normalized(header), st))
    case StructuredRegex(items, regex) => Early(c, AnyItem(c, regex, items(header), 0, st))
    case VariableRegex(name, regex) => Early(c, VariableMatches(c, name, regex, st))
    case SmallerThan(size) => if |header| >= size then Early(c, Ok((false, st))) else Ok((Deferred, st))
    case LargerThan(size) => if |header| > size then Early(c, Ok((true, st))) else Ok((Deferred, st))
    case _ => Ok((Deferred, st))
  }

  /** `matches_complete`, on the message made of a header and a body. */
  function MatchesComplete(c: Condition, header: seq<Byte>, body: seq<Byte>, st: State): Result<(bool, State), EvalError>
    decreases if c.kind.ShellExpanded? then 1 else 0
  {
    match c.kind
    case ShellExpanded(resolve) =>
      var resolved :- resolve(st);
      if resolved.kind.ShellExpanded? then Err(Unresolved) else MatchesComplete(resolved, header, body, st)
    case Multipart(parts) => Negated(c, MultipartMatches(c, parts, header, body, st))
    case HeaderRegex(regex) => Negated(c, RegexMatches(c, regex, Normalized(header), st))
    case StructuredRegex(items, regex) => Negated(c, AnyItem(c, regex, items(header), 0, st))
    case BodyRegex(regex) => Negated(c, RegexMatches(c, regex, body, st))
    case MessageRegex(regex) => Negated(c, RegexMatches(c, regex, Normalized(header) + body, st))
    case VariableRegex(name, regex) => Negated(c, VariableMatches(c, name, regex, st))
    case Program => Err(ExternalCondition)
    case SmallerThan(size) => Negated(c, Ok((|header| + |body| < size, st)))
    case LargerThan(size) => Negated(c, Ok((|header| + |body| > size, st)))
  }

  /** Whether a condition waits for the body depends on its kind and on the length
      of the header only. */
  predicate Waits(c: Condition, header: seq<Byte>) {
    match c.kind
    case HeaderRegex(_) => false
    case StructuredRegex(_, _) => false
    case VariableRegex(_, _) => false
    case SmallerThan(size) => |header| < size
    case LargerThan(size) => |header| <= size
    case _ => true
  }

  /** A condition that does not wait is evaluated from the header as it would be
      on the whole message, whatever its body, errors and variables included. */
  lemma EarlyIsComplete(c: Condition, header: seq<Byte>, body: seq<Byte>, st: State)
    ensures MatchesHeaders(c, header, st) ==
            if Waits(c, header) then Ok((Deferred, st))
            else
              match MatchesComplete(c, header, body, st)
              case Ok(r) => Ok((Decided(r.0), r.1))
              case Err(e) => Err(e)
  {
  }

  ghost predicate AllBodiesAgree(c: Condition, header: seq<Byte>, st: State) {
    forall a, b :: MatchesComplete(c, header, a, st) == MatchesComplete(c, header, b, st)
  }

  /** Size conditions are decided as early as they can be: exactly when no body
      could change the answer. */
  lemma SizesAreDecidedAtOnce(c: Condition, header: seq<Byte>, st: State)
    requires c.kind.SmallerThan? || c.kind.LargerThan?
    ensures MatchesHeaders(c, header, st).value.0.Decided? <==> AllBodiesAgree(c, header, st)
  {
    var size := if c.kind.SmallerThan? then c.kind.below else c.kind.above;
    var small: seq<Byte>, large := [], seq(size + 1, _ => 0);
    if MatchesHeaders(c, header, st).value.0.Deferred? {
      assert MatchesComplete(c, header, small, st) != MatchesComplete(c, header, large, st);
    }
  }

  /** A negated match and every failed match leave no MATCH value behind. */
  lemma NoMatchIsLeft(c: Condition, regex: Regex, input: seq<Byte>, st: State)
    requires c.matchCaptures != [] || c.captureIndexes != []
    requires var r := RegexMatches(c, regex, input, st);
             r.Ok? && (c.negated || !r.value.0)
    ensures var after := RegexMatches(c, regex, input, st).value.1;
            Lookup(after, MATCH, true) == None &&
            forall name :: IsNumberedMatch(name) && name in st.values ==> Lookup(after, name, true) == None
  {
    assert !IsNumberedMatch(MATCH);
  }
}

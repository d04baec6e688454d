/** Parsed shell expressions and the questions the rest of the system asks of a
    parameter operation before evaluating it. */
module ShellExpression {
  import opened Bytes

  const MAX_EXPANSION_DEPTH: nat := 32

  type Name = string

  datatype CaseDirection = Upper | Lower

  datatype Expression = Expression(parts: seq<Part>)

  datatype Part =
    | Literal(text: seq<Byte>)
    | Variable(name: Name, operation: Operation)
    | RegexQuotedVariable(name: Name)
    | Command(command: string)
    | PatternQuote(expression: Expression)

  datatype Operation =
    | Value
    | DefaultIfUnset(word: Expression)
    | DefaultIfUnsetOrEmpty(word: Expression)
    | AlternateIfSet(word: Expression)
    | AlternateIfSetAndNotEmpty(word: Expression)
    | AssignIfUnsetOrEmpty(word: Expression)
    | ErrorIfUnsetOrEmpty(message: Expression)
    | Length
    | RemovePrefix(pattern: Expression, longest: bool)
    | RemoveSuffix(pattern: Expression, longest: bool)
    | ChangeCase(pattern: Expression, direction: CaseDirection, all: bool)
  {
    /** The word that some evaluation may run; the message of `:?` never is. */
    function Word(): Option<Expression> {
      match this
      case Value => None
      case Length => None
      case ErrorIfUnsetOrEmpty(_) => None
      case DefaultIfUnset(w) => Some(w)
      case DefaultIfUnsetOrEmpty(w) => Some(w)
      case AlternateIfSet(w) => Some(w)
      case AlternateIfSetAndNotEmpty(w) => Some(w)
      case AssignIfUnsetOrEmpty(w) => Some(w)
      case RemovePrefix(p, _) => Some(p)
      case RemoveSuffix(p, _) => Some(p)
      case ChangeCase(p, _, _) => Some(p)
    }

    function SelectedWord(isSet: bool, isEmpty: bool): Option<Expression> {
      match this
      case DefaultIfUnset(w) => if !isSet then Some(w) else None
      case DefaultIfUnsetOrEmpty(w) => if !isSet || isEmpty then Some(w) else None
      case AlternateIfSet(w) => if isSet then Some(w) else None
      case AlternateIfSetAndNotEmpty(w) => if isSet && !isEmpty then Some(w) else None
      case AssignIfUnsetOrEmpty(w) => if !isSet || isEmpty then Some(w) else None
      case _ => None
    }

    predicate RequiresValue() {
      Value? || IsValueTransform()
    }

    predicate IsValueTransform() {
      Length? || RemovePrefix? || RemoveSuffix? || ChangeCase?
    }

    predicate EvaluatesWord(isSet: bool, isEmpty: bool) {
      if RemovePrefix? || RemoveSuffix? || ChangeCase? then isSet
      else SelectedWord(isSet, isEmpty).Some?
    }

    predicate UsesValueWhenWordIsNotSelected() {
      Value? || DefaultIfUnset? || DefaultIfUnsetOrEmpty? || ErrorIfUnsetOrEmpty? || IsValueTransform()
    }
  }

  /** No `:=` anywhere that could run. */
  predicate AssignmentFree(e: Expression)
    decreases e, 1
  {
    forall i :: 0 <= i < |e.parts| ==> PartAssignmentFree(e.parts[i])
  }

  predicate PartAssignmentFree(part: Part)
    decreases part, 0
  {
    match part
    case Variable(_, op) =>
      !op.AssignIfUnsetOrEmpty? && (op.Word().Some? ==> AssignmentFree(op.Word().value))
    case PatternQuote(e) => AssignmentFree(e)
    case _ => true
  }
}

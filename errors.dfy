/**
 * The typed errors the template engine raises. Three of them have their
 * message text and `name` defined in src/errors.ts; IncorrectForParams and
 * IncorrectType are imported from there but their text is not part of this
 * model, so they carry only their argument.
 */
module Errors {
  import opened Wrappers

  /** Which lookup failed. Its printed form lives in ./types, which is not
      part of this model, so messages take it as a parameter. */
  datatype EntityType = Variable | AttributeInitializer

  datatype Error =
    | NotDefined(kind: EntityType, name: string)
    | Validation
    | EmptyAttribute(attribute: string)
    | IncorrectForParams(raw: Option<string>)
    | IncorrectType(source: string)

  /** A computation that either yields a value or throws one of the errors. */
  datatype Result<+T> = Ok(value: T) | Err(error: Error)

  const NotDefinedSuffix: string := "\" is not defined"
  const ValidationText: string := "markup is not valid"
  const EmptyAttributePrefix: string := "attribute \""
  const EmptyAttributeSuffix: string := "\" has an empty initializer"

  /** The `message` of an error, given the printed form of each entity type;
      None where the message text is not part of this model, which is
      exactly where the error has no `name` either. */
  function Message(e: Error, kindText: EntityType -> string): (r: Option<string>)
    ensures r.Some? <==> Name(e).Some?
  {
    match e
    case NotDefined(kind, name) => Some(kindText(kind) + " \"" + name + NotDefinedSuffix)
    case Validation => Some(ValidationText)
    case EmptyAttribute(attribute) => Some(EmptyAttributePrefix + attribute + EmptyAttributeSuffix)
    case _ => None
  }

  /** The `name` property of an error object: its class name. */
  function Name(e: Error): (r: Option<string>)
    ensures r.Some? <==> e.NotDefined? || e.Validation? || e.EmptyAttribute?
  {
    match e
    case NotDefined(_, _) => Some("NotDefinedError")
    case Validation => Some("ValidationError")
    case EmptyAttribute(_) => Some("EmptyAttributeError")
    case _ => None
  }

  /** A message of the form `<kind> "<name>" is not defined` quotes exactly
      the name that was looked up: for one entity type the message determines
      the name. */
  lemma NotDefinedMessageDeterminesName(kind: EntityType, n1: string, n2: string, kindText: EntityType -> string)
    requires Message(NotDefined(kind, n1), kindText) == Message(NotDefined(kind, n2), kindText)
    ensures n1 == n2
  {
    var p := kindText(kind) + " \"";
    var m1 := p + n1 + NotDefinedSuffix;
    var m2 := p + n2 + NotDefinedSuffix;
    assert m1 == m2;
    assert |n1| == |n2|;
    assert m1[|p|..|p| + |n1|] == n1;
    assert m2[|p|..|p| + |n2|] == n2;
  }

  /** `attribute "<name>" has an empty initializer` determines the name. */
  lemma EmptyAttributeMessageDeterminesName(a1: string, a2: string, kindText: EntityType -> string)
    requires Message(EmptyAttribute(a1), kindText) == Message(EmptyAttribute(a2), kindText)
    ensures a1 == a2
  {
    var m1 := EmptyAttributePrefix + a1 + EmptyAttributeSuffix;
    var m2 := EmptyAttributePrefix + a2 + EmptyAttributeSuffix;
    assert m1 == m2;
    assert |a1| == |a2|;
    assert m1[|EmptyAttributePrefix|..|EmptyAttributePrefix| + |a1|] == a1;
    assert m2[|EmptyAttributePrefix|..|EmptyAttributePrefix| + |a2|] == a2;
  }

  /** Errors of different classes never share a message (the last two
      characters already tell them apart) nor a class name. */
  lemma DistinctKindsHaveDistinctMessages(e1: Error, e2: Error, kindText: EntityType -> string)
    requires Message(e1, kindText).Some? && Message(e2, kindText).Some?
    requires e1.NotDefined? != e2.NotDefined? || e1.Validation? != e2.Validation?
    ensures Message(e1, kindText) != Message(e2, kindText)
    ensures Name(e1) != Name(e2)
  {
    var m1 := Message(e1, kindText).value;
    var m2 := Message(e2, kindText).value;
    assert m1[|m1| - 2..] == Tail(e1) by { TailOfMessage(e1, kindText); }
    assert m2[|m2| - 2..] == Tail(e2) by { TailOfMessage(e2, kindText); }
  }

  function Tail(e: Error): string
  {
    if e.NotDefined? then "ed" else if e.Validation? then "id" else "er"
  }

  lemma TailOfMessage(e: Error, kindText: EntityType -> string)
    requires Message(e, kindText).Some?
    ensures |Message(e, kindText).value| >= 2
    ensures var m := Message(e, kindText).value; m[|m| - 2..] == Tail(e)
  {
    var m := Message(e, kindText).value;
    match e
    case NotDefined(kind, name) =>
      var p := kindText(kind) + " \"" + name;
      assert m == p + NotDefinedSuffix;
      assert m[|m| - 2..] == NotDefinedSuffix[|NotDefinedSuffix| - 2..];
    case Validation =>
    case EmptyAttribute(attribute) =>
      var p := EmptyAttributePrefix + attribute;
      assert m == p + EmptyAttributeSuffix;
      assert m[|m| - 2..] == EmptyAttributeSuffix[|EmptyAttributeSuffix| - 2..];
  }
}

/** The boundary to the data-annotation library: values, validation attributes (rules), the
    view-model object and its static type, and the pure part of evaluating a property's rules.

    A rule is opaque: it is a total function from the value under test and a validation context
    to a success or a failure message. What a rule checks (required, maximum length, e-mail
    format, comparison with a sibling property) is not part of this model. */
module Annotations {

  /** The boxed value of a property, or a value supplied by a caller; `Null` is C#'s null. */
  datatype Value = Null | Text(text: string) | Number(number: int) | Flag(flag: bool)

  /** What a rule may consult besides the value: the view-model's current property values
      (its object instance) and the name of the property being validated. */
  datatype ValidationContext = ValidationContext(instance: map<string, Value>, memberName: string)

  /** `ValidationResult.Success`, or a failure carrying its error message. */
  datatype ValidationResult = Success | Failure(errorMessage: string)

  /** A validation attribute: evaluated with `GetValidationResult(value, context)`. */
  datatype ValidationAttribute = ValidationAttribute(check: (Value, ValidationContext) -> ValidationResult)

  /** The optional attribute adapter, `Adapt(original, viewModelType)`. */
  datatype Adapter = Adapter(adapt: (ValidationAttribute, TypeInfo) -> ValidationAttribute)

  /** A public property of a view-model type: whether it has a getter, and the validation
      attributes declared on it, in declaration order. */
  datatype PropertyInfo = PropertyInfo(canRead: bool, attributes: seq<ValidationAttribute>)

  /** The static type of a view-model. `properties` holds the PUBLIC properties only, so a
      protected or private property is absent, as it is to `Type.GetProperty(name)`. */
  datatype TypeInfo = TypeInfo(name: string, properties: map<string, PropertyInfo>)

  /** The object being validated. Its type is fixed; its property values change as the
      application runs, and validators read them when they validate. */
  class ViewModel {
    const objectType: TypeInfo
    var values: map<string, Value>

    constructor (objectType: TypeInfo, values: map<string, Value>)
      ensures this.objectType == objectType && this.values == values
    {
      this.objectType := objectType;
      this.values := values;
    }

    /** The current value of a property. The initial `values` give each property its default
        (null, 0, false); a name absent from them reads as null. */
    function Get(property: string): Value
      reads this
    {
      if property in values then values[property] else Null
    }
  }

  predicate Fails(attribute: ValidationAttribute, value: Value, context: ValidationContext) {
    attribute.check(value, context).Failure?
  }

  /** The error messages of the attributes that fail for `value`, in attribute order: the
      Select / Where / Select pipeline of the validator's private `Validate`. */
  function Errors(attributes: seq<ValidationAttribute>, value: Value, context: ValidationContext): (errors: seq<string>)
    ensures |errors| <= |attributes|
  {
    if attributes == [] then []
    else
      var rest := Errors(attributes[1..], value, context);
      match attributes[0].check(value, context)
      case Success => rest
      case Failure(message) => [message] + rest
  }

  /** The positions from `from` on of the failing attributes, in increasing order: an
      independent statement of which rules fail, against which `Errors` is checked. */
  ghost function FailingIndices(attributes: seq<ValidationAttribute>, value: Value, context: ValidationContext, from: nat): seq<nat>
    requires from <= |attributes|
    decreases |attributes| - from
  {
    if from == |attributes| then []
    else
      var rest := FailingIndices(attributes, value, context, from + 1);
      if Fails(attributes[from], value, context) then [from] + rest else rest
  }

  /** `FailingIndices` lists, in increasing order, exactly the positions from `from` on whose
      attribute fails. */
  lemma {:induction false} FailingIndicesAreTheFailures(attributes: seq<ValidationAttribute>, value: Value, context: ValidationContext, from: nat)
    requires from <= |attributes|
    ensures var indices := FailingIndices(attributes, value, context, from);
      && (forall k :: 0 <= k < |indices| ==> from <= indices[k] < |attributes|)
      && (forall k, l :: 0 <= k < l < |indices| ==> indices[k] < indices[l])
      && (forall i: nat :: i in indices <==> from <= i < |attributes| && Fails(attributes[i], value, context))
    decreases |attributes| - from
  {
    if from < |attributes| {
      FailingIndicesAreTheFailures(attributes, value, context, from + 1);
    }
  }

  /** The presenter receives exactly the messages of the failing attributes, in the order the
      attributes were declared. */
  lemma {:induction false} ErrorsAreFailingMessages(attributes: seq<ValidationAttribute>, value: Value, context: ValidationContext, from: nat)
    requires from <= |attributes|
    ensures var errors, indices := Errors(attributes[from..], value, context), FailingIndices(attributes, value, context, from);
      |errors| == |indices| &&
      forall k :: 0 <= k < |indices| ==>
        indices[k] < |attributes| && attributes[indices[k]].check(value, context) == Failure(errors[k])
    decreases |attributes| - from
  {
    if from < |attributes| {
      ErrorsAreFailingMessages(attributes, value, context, from + 1);
      assert attributes[from..][1..] == attributes[from + 1..];
      var errors, rest := Errors(attributes[from..], value, context), Errors(attributes[from + 1..], value, context);
      var indices, later := FailingIndices(attributes, value, context, from), FailingIndices(attributes, value, context, from + 1);
      if Fails(attributes[from], value, context) {
        assert errors == [attributes[from].check(value, context).errorMessage] + rest;
        assert indices == [from] + later;
        forall k | 0 < k < |indices|
          ensures indices[k] < |attributes| && attributes[indices[k]].check(value, context) == Failure(errors[k])
        {
          assert errors[k] == rest[k - 1] && indices[k] == later[k - 1];
        }
      } else {
        assert errors == rest && indices == later;
      }
    }
  }

  /** A property passes exactly when none of its attributes fails. */
  lemma PassesIffNoAttributeFails(attributes: seq<ValidationAttribute>, value: Value, context: ValidationContext)
    ensures Errors(attributes, value, context) == [] <==>
      forall i :: 0 <= i < |attributes| ==> !Fails(attributes[i], value, context)
  {
    ErrorsAreFailingMessages(attributes, value, context, 0);
    FailingIndicesAreTheFailures(attributes, value, context, 0);
    assert attributes[0..] == attributes;
    var indices := FailingIndices(attributes, value, context, 0);
    if indices != [] {
      assert indices[0] in indices;
    }
  }
}

/** The property registry: what a builder records for each added property, and the pure logic
    of `ValidatorBuilder.AddProperty` (its checks, in the order the builder makes them, and the
    entry it stores). */
module PropertyRegistry {
  import opened Outcomes
  import opened Annotations
  import opened Lists

  /** The getter delegate made for a property: a closure over the view-model bound when the
      property was added. Invoking it reads that object's current value. */
  datatype Getter = Getter(target: ViewModel, property: string) {
    function Invoke(): Value
      reads target
    {
      target.Get(property)
    }
  }

  /** `Validator.PropertyValidationData`: the rules of one property and its getter. */
  datatype PropertyValidationData = PropertyValidationData(attributes: seq<ValidationAttribute>, getter: Getter)

  /** The `_properties` dictionary. `names` is the order in which the keys were inserted, which
      is the order a dictionary that never loses a key enumerates them in. */
  datatype Registry = Registry(names: seq<string>, data: map<string, PropertyValidationData>) {

    ghost predicate WellFormed() {
      Distinct(names) && forall n :: n in data <==> n in names
    }

    /** `Properties`: the names registered so far. */
    function Keys(): set<string> {
      data.Keys
    }

    function Add(name: string, entry: PropertyValidationData): Registry {
      Registry(names + [name], data[name := entry])
    }

    /** The view-models the getters read. */
    ghost function Targets(): (models: set<ViewModel>)
      ensures TargetsIn(models)
    {
      set n | n in data :: data[n].getter.target
    }

    /** Every getter reads one of `models`. */
    ghost predicate TargetsIn(models: set<ViewModel>) {
      forall n | n in data :: data[n].getter.target in models
    }
  }

  const Empty: Registry := Registry([], map[])

  /** `GetValidationAttributesFromProperty`: the declared attributes, in order, each passed once
      through the adapter when there is one, and left as they are when there is none. */
  function Adapted(attributes: seq<ValidationAttribute>, adapter: Option<Adapter>, viewModelType: TypeInfo): (r: seq<ValidationAttribute>)
    ensures |r| == |attributes|
    ensures adapter.None? ==> r == attributes
    ensures adapter.Some? ==> forall i :: 0 <= i < |r| ==> r[i] == adapter.value.adapt(attributes[i], viewModelType)
  {
    match adapter
    case None => attributes
    case Some(a) => seq(|attributes|, i requires 0 <= i < |attributes| => a.adapt(attributes[i], viewModelType))
  }

  /** What `AddProperty(name)` does to the registry of a builder whose view-model is `target`. */
  function Register(registry: Registry, target: ViewModel?, adapter: Option<Adapter>, name: Option<string>): (r: Result<Registry>)
    requires registry.WellFormed()
    ensures r.Ok? ==> name.Some? && name.value !in registry.Keys()
    ensures r.Ok? ==> r.value.WellFormed()
    ensures r.Ok? ==> r.value.Keys() == registry.Keys() + {name.value}
    ensures r.Ok? ==> r.value.names == registry.names + [name.value]
    ensures r.Ok? ==> forall n :: n in registry.data ==> r.value.data[n] == registry.data[n]
  {
    if name.None? then Err(ArgumentNull("propertyName"))
    else if target == null then Err(ViewModelMissing)
    else if name.value in registry.data then Err(PropertyAlreadyAdded(name.value))
    else if name.value !in target.objectType.properties then Err(ViewModelMissingProperty(name.value))
    else if !target.objectType.properties[name.value].canRead then Err(PropertyGetterMissing(name.value))
    else
      var property := target.objectType.properties[name.value];
      var entry := PropertyValidationData(Adapted(property.attributes, adapter, target.objectType), Getter(target, name.value));
      Ok(registry.Add(name.value, entry))
  }

  /** The checks of `AddProperty` and the order they are made in: a null name, then a missing
      view-model, then a duplicate (before the property is even looked up), then a name that is
      not a public property, then a property without a getter. A name that passes all five is
      accepted. */
  lemma RegisterErrors(registry: Registry, target: ViewModel?, adapter: Option<Adapter>, name: Option<string>)
    requires registry.WellFormed()
    ensures name.None? ==> Register(registry, target, adapter, name) == Err(ArgumentNull("propertyName"))
    ensures name.Some? && target == null ==> Register(registry, target, adapter, name) == Err(ViewModelMissing)
    ensures name.Some? && target != null && name.value in registry.Keys() ==>
      Register(registry, target, adapter, name) == Err(PropertyAlreadyAdded(name.value))
    ensures name.Some? && target != null && name.value !in registry.Keys() && name.value !in target.objectType.properties ==>
      Register(registry, target, adapter, name) == Err(ViewModelMissingProperty(name.value))
    ensures (name.Some? && target != null && name.value !in registry.Keys() && name.value in target.objectType.properties &&
             !target.objectType.properties[name.value].canRead) ==>
      Register(registry, target, adapter, name) == Err(PropertyGetterMissing(name.value))
    ensures (name.Some? && target != null && name.value !in registry.Keys() && name.value in target.objectType.properties &&
             target.objectType.properties[name.value].canRead) ==>
      Register(registry, target, adapter, name).Ok?
  {
  }

  /** A successful registration stores the declared attributes, adapted, and a getter bound to
      the view-model and the property. */
  lemma RegisteredEntry(registry: Registry, target: ViewModel?, adapter: Option<Adapter>, name: Option<string>)
    requires registry.WellFormed()
    requires Register(registry, target, adapter, name).Ok?
    ensures target != null && name.Some? && name.value in target.objectType.properties
    ensures var entry := Register(registry, target, adapter, name).value.data[name.value];
      var declared := target.objectType.properties[name.value].attributes;
      entry.getter == Getter(target, name.value) &&
      |entry.attributes| == |declared| &&
      forall i :: 0 <= i < |declared| ==>
        entry.attributes[i] == (if adapter.Some? then adapter.value.adapt(declared[i], target.objectType) else declared[i])
  {
  }
}

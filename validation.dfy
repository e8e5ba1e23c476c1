/** The validation engine: `Validator` (evaluation, the sub-validator list, disposal) and
    `ValidatorBuilder` (configuration and `Build`). The two classes refer to each other, the
    builder building validators and a validator handing out builders for its sub-validators,
    so they live in one module.

    The results presenter is a delegate the application supplies. A `Presenter` value stands
    for its identity, and each validating call returns, next to its result, the invocations of
    presenters it made, in the order it made them: that sequence is what the application
    observes. */
module Validation {
  import opened Outcomes
  import opened Annotations
  import opened Lists
  import opened PropertyRegistry

  /** The identity of a `ValidationResultsPresenter` delegate. */
  datatype Presenter = Presenter(id: nat)

  /** One invocation `presenter(property, errors)`. */
  datatype Report = Report(presenter: Presenter, property: string, errors: seq<string>)

  /** Bookkeeping, shared by a top-level builder and every validator and builder descending
      from it: the validators built so far, the view-models their getters read, and a bound on
      the depth of the sub-validator tree, which makes the recursion of `ValidateAll` finite.
      It has no counterpart in the program and no compiled state. */
  class ValidatorTree {
    ghost var nodes: set<Validator>
    ghost var models: set<ViewModel>
    ghost var bound: nat

    constructor ()
      ensures nodes == {} && models == {} && bound == 0
      ensures Valid()
    {
      nodes, models, bound := {}, {}, 0;
    }

    /** Every validator is consistent, and the sub-validator lists form a tree: a validator
        appears only in the list of the validator it was built for, at most once, and never once
        it is disposed. Each fact about a validator is exposed only where a proof names it. */
    ghost predicate Valid()
      reads this, nodes
    {
      Consistent() && forall v {:trigger v.ListOk(nodes)} | v in nodes :: v.ListOk(nodes)
    }

    /** What the builder guaranteed of each validator; it depends only on fields that never change. */
    ghost predicate Consistent()
      reads this
    {
      forall v {:trigger v.FitsIn(this, nodes, models, bound)} | v in nodes :: v.FitsIn(this, nodes, models, bound)
    }
  }

  class Validator {
    /** `_validationResultsPresenter` */
    const presenter: Presenter
    /** `_properties`: never changes once the validator is built. */
    const registry: Registry
    /** `_viewModel`, possibly null: a validator without one can still group sub-validators. */
    const viewModel: ViewModel?
    /** The adapter of the builder this validator was built by, which its builder factory passes on. */
    const adapter: Option<Adapter>
    /** The validator whose sub-validator builder built this one, if any: the dispose handler
        asks it to drop this validator from its list. */
    const parent: Validator?
    /** `_subValidators` */
    var subValidators: seq<Validator>
    var disposed: bool

    ghost const tree: ValidatorTree
    ghost const depth: nat

    constructor (presenter: Presenter, registry: Registry, viewModel: ViewModel?, adapter: Option<Adapter>,
                 parent: Validator?, ghost tree: ValidatorTree, ghost depth: nat)
      ensures this.presenter == presenter && this.registry == registry && this.viewModel == viewModel
      ensures this.adapter == adapter && this.parent == parent && this.tree == tree && this.depth == depth
      ensures subValidators == [] && !disposed
    {
      this.presenter := presenter;
      this.registry := registry;
      this.viewModel := viewModel;
      this.adapter := adapter;
      this.parent := parent;
      this.tree := tree;
      this.depth := depth;
      subValidators := [];
      disposed := false;
    }

    ghost predicate Valid()
      reads this, tree, tree.nodes
    {
      tree.Valid() && this in tree.nodes
    }

    /** What the builder guarantees of a validator in tree `t` with the given validators,
        view-models and depth bound. It depends only on fields that never change. */
    ghost predicate FitsIn(t: ValidatorTree, nodes: set<Validator>, models: set<ViewModel>, bound: nat) {
      && tree == t
      && depth <= bound
      && registry.WellFormed()
      && registry.TargetsIn(models)
      && (viewModel != null ==> viewModel in models)
      && (registry.names != [] ==> viewModel != null)
      && (parent != null ==> parent in nodes && depth == parent.depth + 1)
    }

    /** The sub-validator list holds no validator twice, and only live validators of `nodes`
        that were built for this one. */
    ghost predicate ListOk(nodes: set<Validator>)
      reads this, nodes
    {
      && Distinct(subValidators)
      && forall i | 0 <= i < |subValidators| ::
           subValidators[i] in nodes && subValidators[i].parent == this && !subValidators[i].disposed
    }

    /** The validation context of a property: the rules see this validator's view-model, not
        the getter's target, and the name of the property being validated. */
    function Context(property: string): ValidationContext
      requires viewModel != null
      reads viewModel
    {
      ValidationContext(viewModel.values, property)
    }

    /** The private `Validate(name, value, attributes)`: evaluates every attribute, calls the
        presenter once with the failing messages (none when all pass), and returns whether
        none failed. */
    function Present(property: string, value: Value, attributes: seq<ValidationAttribute>): (outcome: (bool, Report))
      requires viewModel != null
      reads viewModel
      ensures outcome.1.presenter == presenter && outcome.1.property == property
      ensures outcome.0 <==> forall i :: 0 <= i < |attributes| ==> !Fails(attributes[i], value, Context(property))
      ensures outcome.0 <==> outcome.1.errors == []
    {
      var errors := Errors(attributes, value, Context(property));
      PassesIffNoAttributeFails(attributes, value, Context(property));
      (errors == [], Report(presenter, property, errors))
    }

    /** `Validate(propertyName, value)`. */
    method Validate(propertyName: Option<string>, value: Value) returns (r: Result<bool>, calls: seq<Report>)
      requires Valid()
      ensures disposed ==> r == Err(ObjectDisposed)
      ensures !disposed && propertyName.None? ==> r == Err(ArgumentNull("propertyName"))
      ensures !disposed && propertyName.Some? && propertyName.value !in registry.Keys() ==>
        r == Err(PropertyNeverAdded(propertyName.value))
      ensures r.Err? ==> calls == []
      ensures !disposed && propertyName.Some? && propertyName.value in registry.Keys() ==>
        viewModel != null &&
        var attributes := registry.data[propertyName.value].attributes;
        calls == [Report(presenter, propertyName.value, Errors(attributes, value, Context(propertyName.value)))] &&
        r.Ok? && (r.value <==> forall i :: 0 <= i < |attributes| ==> !Fails(attributes[i], value, Context(propertyName.value)))
    {
      if disposed {
        return Err(ObjectDisposed), [];
      }
      if propertyName.None? {
        return Err(ArgumentNull("propertyName")), [];
      }
      var name := propertyName.value;
      if name !in registry.data {
        return Err(PropertyNeverAdded(name)), [];
      }
      assert FitsIn(tree, tree.nodes, tree.models, tree.bound) && name in registry.names;
      var outcome := Present(name, value, registry.data[name].attributes);
      return Ok(outcome.0), [outcome.1];
    }

    /** The presenter call `ValidateAll` makes for one registered property: its getter's
        current value, checked against its attributes. */
    ghost function PropertyReport(name: string): Report
      requires Valid() && name in registry.data
      reads this, tree, tree.nodes, tree.models
    {
      var entry := registry.data[name];
      assert FitsIn(tree, tree.nodes, tree.models, tree.bound);
      assert registry.TargetsIn(tree.models) && name in registry.names;
      Report(presenter, name, Errors(entry.attributes, entry.getter.Invoke(), Context(name)))
    }

    /** The presenter calls for the first `n` registered properties, in registration order. */
    ghost function OwnReports(n: nat): seq<Report>
      requires Valid() && n <= |registry.names|
      reads this, tree, tree.nodes, tree.models
    {
      assert FitsIn(tree, tree.nodes, tree.models, tree.bound);
      if n == 0 then [] else OwnReports(n - 1) + [PropertyReport(registry.names[n - 1])]
    }

    /** Every presenter call of `ValidateAll`: this validator's properties, then each
        sub-validator's calls, in list order. */
    ghost function AllReports(): seq<Report>
      requires Valid()
      reads this, tree, tree.nodes, tree.models
      decreases tree.bound - depth, 1, 0
    {
      assert FitsIn(tree, tree.nodes, tree.models, tree.bound);
      OwnReports(|registry.names|) + SubReports(|subValidators|)
    }

    /** The presenter calls of the first `n` sub-validators. */
    ghost function SubReports(n: nat): seq<Report>
      requires Valid() && n <= |subValidators|
      reads this, tree, tree.nodes, tree.models
      decreases tree.bound - depth, 0, n
    {
      if n == 0 then []
      else
        var sub := subValidators[n - 1];
        assert FitsIn(tree, tree.nodes, tree.models, tree.bound) && ListOk(tree.nodes);
        assert sub.FitsIn(tree, tree.nodes, tree.models, tree.bound);
        SubReports(n - 1) + sub.AllReports()
    }

    /** The first `n` registered properties pass: their presenter calls carry no errors. */
    ghost predicate OwnPass(n: nat)
      requires Valid() && n <= |registry.names|
      reads this, tree, tree.nodes, tree.models
    {
      assert FitsIn(tree, tree.nodes, tree.models, tree.bound);
      n == 0 || (OwnPass(n - 1) && PropertyReport(registry.names[n - 1]).errors == [])
    }

    /** The whole tree passes: every registered property of this validator, and every attached
        sub-validator's tree. */
    ghost predicate AllValid()
      requires Valid()
      reads this, tree, tree.nodes, tree.models
      decreases tree.bound - depth, 1, 0
    {
      assert FitsIn(tree, tree.nodes, tree.models, tree.bound);
      OwnPass(|registry.names|) && SubsPass(|subValidators|)
    }

    /** The trees of the first `n` sub-validators all pass. */
    ghost predicate SubsPass(n: nat)
      requires Valid() && n <= |subValidators|
      reads this, tree, tree.nodes, tree.models
      decreases tree.bound - depth, 0, n
    {
      if n == 0 then true
      else
        var sub := subValidators[n - 1];
        assert FitsIn(tree, tree.nodes, tree.models, tree.bound) && ListOk(tree.nodes);
        assert sub.FitsIn(tree, tree.nodes, tree.models, tree.bound);
        SubsPass(n - 1) && sub.AllValid()
    }

    /** A registered property passes exactly when none of its attributes fails for its
        getter's current value. */
    lemma PropertyPassesIff(name: string)
      requires Valid() && name in registry.data
      ensures viewModel != null
      ensures var entry := registry.data[name];
        PropertyReport(name).errors == [] <==>
        forall i :: 0 <= i < |entry.attributes| ==> !Fails(entry.attributes[i], entry.getter.Invoke(), Context(name))
    {
      assert FitsIn(tree, tree.nodes, tree.models, tree.bound) && name in registry.names;
      var entry := registry.data[name];
      PassesIffNoAttributeFails(entry.attributes, entry.getter.Invoke(), Context(name));
    }

    lemma {:induction false} OwnPassIff(n: nat)
      requires Valid() && n <= |registry.names|
      ensures OwnPass(n) <==> forall r | r in OwnReports(n) :: r.errors == []
    {
      if n > 0 {
        OwnPassIff(n - 1);
      }
    }

    /** `ValidateAll` returns true exactly when no presenter call of the tree received an
        error: the outcome and the reports never disagree. */
    lemma {:induction false} AllValidIff()
      requires Valid()
      ensures AllValid() <==> forall r | r in AllReports() :: r.errors == []
      decreases tree.bound - depth, 1, 0
    {
      OwnPassIff(|registry.names|);
      SubsPassIff(|subValidators|);
    }

    lemma {:induction false} SubsPassIff(n: nat)
      requires Valid() && n <= |subValidators|
      ensures SubsPass(n) <==> forall r | r in SubReports(n) :: r.errors == []
      decreases tree.bound - depth, 0, n
    {
      assert FitsIn(tree, tree.nodes, tree.models, tree.bound);
      if n > 0 {
        SubValidatorReady(n - 1);
        SubsPassIff(n - 1);
        subValidators[n - 1].AllValidIff();
      }
    }

    /** `ValidateAll()`: every registered property is validated with its getter's current value
        and reported, then every attached sub-validator validates all of its own; the outcomes
        are ANDed without short-circuit, so every presenter is called. */
    method ValidateAll() returns (r: Result<bool>, calls: seq<Report>)
      requires Valid()
      ensures disposed ==> r == Err(ObjectDisposed) && calls == []
      ensures !disposed ==> r == Ok(AllValid()) && calls == AllReports()
    {
      if disposed {
        return Err(ObjectDisposed), [];
      }
      var valid;
      valid, calls := ValidateTree();
      return Ok(valid), calls;
    }

    /** The body of `ValidateAll` past its disposed check. A sub-validator's own check always
        passes, since a disposed validator leaves its parent's list, so the recursion enters
        here directly. */
    method ValidateTree() returns (valid: bool, calls: seq<Report>)
      requires Valid()
      ensures valid == AllValid() && calls == AllReports()
      decreases tree.bound - depth, 1
    {
      assert FitsIn(tree, tree.nodes, tree.models, tree.bound);
      valid, calls := true, [];
      var i := 0;
      while i < |registry.names|
        invariant i <= |registry.names|
        invariant calls == old(OwnReports(i))
        invariant valid == old(OwnPass(i))
      {
        var name := registry.names[i];
        assert name in registry.data;
        var entry := registry.data[name];
        var outcome := Present(name, entry.getter.Invoke(), entry.attributes);
        calls := calls + [outcome.1];
        valid := valid && outcome.0;
        i := i + 1;
      }
      var subsValid, subCalls := ValidateSubValidators();
      Unchanged();
      return valid && subsValid, calls + subCalls;
    }

    /** The second loop of `ValidateAll`: each attached sub-validator, in list order, validates
        all of its own. */
    method ValidateSubValidators() returns (valid: bool, calls: seq<Report>)
      requires Valid()
      ensures calls == SubReports(|subValidators|)
      ensures valid == SubsPass(|subValidators|)
      decreases tree.bound - depth, 0
    {
      assert FitsIn(tree, tree.nodes, tree.models, tree.bound);
      valid, calls := true, [];
      var count, k := |subValidators|, 0;
      while k < count
        invariant k <= count == old(|subValidators|)
        invariant calls == old(SubReports(k))
        invariant valid == old(SubsPass(k))
      {
        SubValidatorUnchanged(k);
        var sub := subValidators[k];
        var subValid, subCalls := sub.ValidateTree();
        SubValidatorUnchanged(k);
        calls := calls + subCalls;
        valid := valid && subValid;
        k := k + 1;
      }
      Unchanged();
    }

    /** Validating reads the tree without changing it: this validator's calls and outcomes
        are what they were before. */
    twostate lemma Unchanged()
      requires old(Valid())
      requires unchanged(this, tree) && unchanged(tree.nodes) && unchanged(tree.models)
      ensures Valid()
      ensures OwnReports(|registry.names|) == old(OwnReports(|registry.names|))
      ensures OwnPass(|registry.names|) == old(OwnPass(|registry.names|))
      ensures SubReports(|subValidators|) == old(SubReports(|subValidators|))
      ensures SubsPass(|subValidators|) == old(SubsPass(|subValidators|))
    {
    }

    /** An attached sub-validator is valid, live, and one level deeper in the same tree. */
    lemma SubValidatorReady(k: nat)
      requires Valid() && k < |subValidators|
      ensures var sub := subValidators[k];
        sub.Valid() && !sub.disposed && sub.tree == tree && sub.depth == depth + 1
    {
      var sub := subValidators[k];
      assert FitsIn(tree, tree.nodes, tree.models, tree.bound) && ListOk(tree.nodes);
      assert sub.FitsIn(tree, tree.nodes, tree.models, tree.bound);
    }

    /** While the tree is unchanged, the `k`-th sub-validator is ready to validate, and its
        calls and outcome are those it had before; they extend those of the first `k`. */
    twostate lemma SubValidatorUnchanged(k: nat)
      requires old(Valid()) && k < old(|subValidators|)
      requires unchanged(this, tree) && unchanged(tree.nodes) && unchanged(tree.models)
      ensures Valid() && k < |subValidators|
      ensures var sub := subValidators[k];
        && sub.Valid() && !sub.disposed && sub.tree == tree && sub.depth == depth + 1
        && old(sub.Valid())
        && sub.AllReports() == old(sub.AllReports()) && sub.AllValid() == old(sub.AllValid())
        && old(SubReports(k + 1)) == old(SubReports(k)) + old(sub.AllReports())
        && old(SubsPass(k + 1)) == (old(SubsPass(k)) && old(sub.AllValid()))
    {
      SubValidatorReady(k);
      var sub := subValidators[k];
      sub.Unchanged();
      assert old(sub.Valid());
    }

    /** `CreateSubValidatorBuilder()`: a builder whose `Build` attaches its validator to this one. */
    method CreateSubValidatorBuilder() returns (r: Result<ValidatorBuilder>)
      requires Valid()
      ensures disposed ==> r == Err(ObjectDisposed)
      ensures !disposed ==>
        && r.Ok? && fresh(r.value) && r.value.Valid()
        && r.value.parent == this && r.value.adapter == adapter && r.value.tree == tree
        && r.value.registry == Empty && r.value.viewModel == null && r.value.presenter.None?
    {
      if disposed {
        return Err(ObjectDisposed);
      }
      var builder := new ValidatorBuilder.ForSubValidator(adapter, this);
      return Ok(builder);
    }

    /** `AddSubValidator`, the build handler a sub-validator builder calls. */
    method AddSubValidator(validator: Validator)
      modifies this
      ensures subValidators == old(subValidators) + [validator]
      ensures disposed == old(disposed)
    {
      subValidators := subValidators + [validator];
    }

    /** The dispose handler a sub-validator calls: it drops the validator from this one's list,
        as disposing requires, by the removal `List<T>.Remove` performs. */
    method RemoveSubValidator(validator: Validator)
      modifies this
      ensures subValidators == RemoveFirst(old(subValidators), validator)
      ensures disposed == old(disposed)
    {
      subValidators := RemoveFirst(subValidators, validator);
    }

    /** `Dispose()`: the validator becomes unusable for good, and its parent, if any, stops
        traversing it. Its own sub-validators are left as they are. */
    method Dispose()
      requires Valid()
      modifies this, parent
      ensures Valid()
      ensures disposed && subValidators == old(subValidators)
      ensures parent != null ==>
        parent.subValidators == RemoveFirst(old(parent.subValidators), this) &&
        this !in parent.subValidators &&
        parent.disposed == old(parent.disposed)
    {
      assert FitsIn(tree, tree.nodes, tree.models, tree.bound);
      assert parent != null ==> parent.ListOk(tree.nodes);
      disposed := true;
      if parent != null {
        parent.RemoveSubValidator(this);
        RemoveFirstOfDistinct(old(parent.subValidators), this);
      }
      forall v | v in tree.nodes ensures v.ListOk(tree.nodes) {
        assert old(v.ListOk(tree.nodes));
        forall i | 0 <= i < |v.subValidators|
          ensures v.subValidators[i] in tree.nodes && v.subValidators[i].parent == v && !v.subValidators[i].disposed
        {
          var w := v.subValidators[i];
          if v == parent {
            assert w != this && w in old(parent.subValidators);
          } else {
            assert v.subValidators == old(v.subValidators);
          }
        }
      }
    }
  }

  class ValidatorBuilder {
    /** `_validationAttributeAdapter` */
    const adapter: Option<Adapter>
    /** The validator a sub-validator builder was created by: its build handler appends the
        built validator to that validator's list, and its dispose handler removes it again. */
    const parent: Validator?
    /** `_properties` */
    var registry: Registry
    /** `_viewModel` */
    var viewModel: ViewModel?
    /** `_viewModelType`, cached when the view-model is bound. */
    var viewModelType: Option<TypeInfo>
    /** `_validationResultsPresenter` */
    var presenter: Option<Presenter>

    ghost const tree: ValidatorTree

    ghost predicate Valid()
      reads this, tree
    {
      && registry.WellFormed()
      && (viewModel == null ==> viewModelType.None? && registry == Empty)
      && (viewModel != null ==> viewModelType == Some(viewModel.objectType))
      && (parent != null ==> parent in tree.nodes && parent.tree == tree)
    }

    /** `new ValidatorBuilder(serviceProvider, validationAttributeAdapter)`: a top-level builder,
        without handlers. */
    constructor (adapter: Option<Adapter>)
      ensures Valid() && fresh(tree) && tree.Valid() && tree.nodes == {}
      ensures this.adapter == adapter && parent == null
      ensures registry == Empty && viewModel == null && presenter.None?
    {
      this.adapter := adapter;
      parent := null;
      registry := Empty;
      viewModel := null;
      viewModelType := None;
      presenter := None;
      var t := new ValidatorTree();
      tree := t;
    }

    /** `CloneWithBuildHandler`: a builder with the same adapter whose handlers are bound to
        `parent`. */
    constructor ForSubValidator(adapter: Option<Adapter>, parent: Validator)
      requires parent.Valid()
      ensures Valid() && tree == parent.tree
      ensures this.adapter == adapter && this.parent == parent
      ensures registry == Empty && viewModel == null && presenter.None?
    {
      this.adapter := adapter;
      this.parent := parent;
      registry := Empty;
      viewModel := null;
      viewModelType := None;
      presenter := None;
      tree := parent.tree;
    }

    /** `WithViewModel(viewModel)`: binds the object to validate and caches its type. */
    method WithViewModel(viewModel: ViewModel?) returns (r: Result<ValidatorBuilder>)
      requires Valid()
      modifies this
      ensures Valid()
      ensures viewModel == null ==> r == Err(ArgumentNull("viewModel")) && this.viewModel == old(this.viewModel)
      ensures viewModel != null ==> r == Ok(this) && this.viewModel == viewModel && viewModelType == Some(viewModel.objectType)
      ensures registry == old(registry) && presenter == old(presenter)
    {
      if viewModel == null {
        return Err(ArgumentNull("viewModel"));
      }
      this.viewModel := viewModel;
      viewModelType := Some(viewModel.objectType);
      return Ok(this);
    }

    /** `AddProperty(propertyName)`: the registry changes exactly as `Register` says; on an
        error it is left as it was. */
    method AddProperty(propertyName: Option<string>) returns (r: Result<ValidatorBuilder>)
      requires Valid()
      modifies this
      ensures Valid()
      ensures viewModel == old(viewModel) && viewModelType == old(viewModelType) && presenter == old(presenter)
      ensures var outcome := Register(old(registry), viewModel, adapter, propertyName);
        && (outcome.Ok? ==> r == Ok(this) && registry == outcome.value)
        && (outcome.Err? ==> r == Err(outcome.error) && registry == old(registry))
    {
      if propertyName.None? {
        return Err(ArgumentNull("propertyName"));
      }
      var name := propertyName.value;
      if viewModel == null {
        return Err(ViewModelMissing);
      }
      if name in registry.data {
        return Err(PropertyAlreadyAdded(name));
      }
      var viewModelType := viewModelType.value;
      if name !in viewModelType.properties {
        return Err(ViewModelMissingProperty(name));
      }
      var property := viewModelType.properties[name];
      if !property.canRead {
        return Err(PropertyGetterMissing(name));
      }
      var entry := PropertyValidationData(Adapted(property.attributes, adapter, viewModelType), Getter(viewModel, name));
      registry := registry.Add(name, entry);
      return Ok(this);
    }

    /** `WithResultsPresenter(presenter)`: sets, or overwrites, the presenter. */
    method WithResultsPresenter(presenter: Option<Presenter>) returns (r: ValidatorBuilder)
      requires Valid()
      modifies this
      ensures Valid() && r == this
      ensures this.presenter == presenter
      ensures registry == old(registry) && viewModel == old(viewModel) && viewModelType == old(viewModelType)
    {
      this.presenter := presenter;
      return this;
    }

    /** `Properties`: the names added so far, each once. */
    function Properties(): (names: set<string>)
      requires Valid()
      reads this, tree
      ensures forall n :: n in names <==> n in registry.names
    {
      registry.Keys()
    }

    /** `Build()`: needs a presenter (a view-model is optional). The new validator owns a copy of
        the registry, and the build handler, when there is one, appends it to the parent's list. */
    method Build() returns (r: Result<Validator>)
      requires Valid() && tree.Valid()
      modifies tree, parent
      ensures Valid() && tree.Valid()
      ensures presenter.None? ==> r == Err(ResultsPresenterMissing) && tree.nodes == old(tree.nodes)
      ensures presenter.Some? ==>
        && r.Ok? && fresh(r.value) && r.value.Valid()
        && r.value.registry == registry && r.value.presenter == presenter.value
        && r.value.viewModel == viewModel && r.value.adapter == adapter && r.value.parent == parent
        && r.value.subValidators == [] && !r.value.disposed && r.value.tree == tree
        && tree.nodes == old(tree.nodes) + {r.value}
      ensures parent != null ==>
        && parent.subValidators == old(parent.subValidators) + (if presenter.Some? then [r.value] else [])
        && parent.disposed == old(parent.disposed)
    {
      if presenter.None? {
        return Err(ResultsPresenterMissing);
      }
      ghost var depth := if parent == null then 0 else parent.depth + 1;
      ghost var models := tree.models;
      var validator := new Validator(presenter.value, registry, viewModel, adapter, parent, tree, depth);
      tree.nodes := tree.nodes + {validator};
      tree.models := tree.models + registry.Targets() + (if viewModel == null then {} else {viewModel});
      tree.bound := if depth > tree.bound then depth else tree.bound;
      if parent != null {
        parent.AddSubValidator(validator);
      }
      forall v | v in tree.nodes ensures v.FitsIn(tree, tree.nodes, tree.models, tree.bound) {
        if v != validator {
          assert v.FitsIn(tree, old(tree.nodes), models, old(tree.bound));
          assert v.registry.TargetsIn(tree.models);
        }
      }
      forall v | v in tree.nodes ensures v.ListOk(tree.nodes) {
        if v != validator {
          assert old(v.ListOk(tree.nodes));
          forall i | 0 <= i < |v.subValidators|
            ensures v.subValidators[i] in tree.nodes && v.subValidators[i].parent == v && !v.subValidators[i].disposed
          {
            if v == parent && i == |v.subValidators| - 1 {
              assert v.subValidators[i] == validator;
            } else {
              assert v.subValidators[i] == old(v.subValidators)[i];
            }
          }
          assert validator !in old(v.subValidators);
        }
      }
      return Ok(validator);
    }
  }
}

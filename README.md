# Starcounter.Validation: the builder and validator engine, in Dafny

Starcounter.Validation validates the properties of a view-model with data-annotation
attributes. An application configures a `ValidatorBuilder` fluently:

- `WithViewModel` binds the object to validate.
- `AddProperty` (or `AddProperties` for several names) registers a property. The builder stores
  the property's validation attributes, passed through an optional adapter, and a getter that
  reads the property's current value.
- `WithResultsPresenter` sets the delegate that receives the outcome of each validation.

`Build` then produces a `Validator`:

- `Validate(name, value)` checks a value against one registered property's attributes.
- `ValidateAll()` checks every registered property with its current value, then asks every
  attached sub-validator to do the same. The outcomes are ANDed without short-circuit, so every
  presenter sees every property.
- `CreateSubValidatorBuilder()` hands out a builder whose `Build` attaches the new validator to
  this one.
- A disposed validator refuses all three and is dropped from its parent's list.

Each validation calls the presenter once per property, with the messages of the failing
attributes in declaration order (none when all pass), and returns true exactly when none failed.

The model, module by module:

- `Outcomes` (`outcomes.dfy`): `Option`, `Result` and the exceptions the code throws, as values.
- `Annotations` (`annotations.dfy`): values, opaque attributes, adapters, the view-model object
  with its static type, and the pure attribute pipeline (`Errors`).
- `Lists` (`lists.dfy`): `List<T>.Remove`, which drops the first occurrence.
- `PropertyRegistry` (`registry.dfy`): the `_properties` dictionary, and what `AddProperty` does
  to it (`Register`), as a function.
- `Validation` (`validation.dfy`): the `Validator` and `ValidatorBuilder` classes, whose methods
  update their fields in place.
- `Extensions` (`extensions.dfy`): the `AddProperties` loop, and the fold (`RegisterAll`) that
  specifies it.

The presenter is an application delegate. A `Presenter` value stands for its identity. Every
validating method returns, next to its result, the sequence of presenter invocations it made.
`ValidateAll` is specified by ghost functions of the validator tree: `AllReports()` gives the
calls and `AllValid()` the outcome. A ghost `ValidatorTree` object, shared by all validators
built from one top-level builder, records the validators, the view-models their getters read,
and a depth bound. The bound makes the recursion into sub-validators finite. The tree's
invariant states that sub-validator lists hold no duplicate, hold only live validators, and
hold each validator only in its parent's list.

Where the sources disagree, the model follows the code:

- `Starcounter.Validation/IValidatorBuilder.cs:50` says `Build` throws without a view-model.
  The code only requires a presenter, so `Build` here does too.
- `Starcounter.Validation/ValidatorBuilder.cs:142` passes six arguments to a `Validator`
  constructor that takes four. The service provider is dropped. The builder factory becomes the
  validator's `adapter`, which is all the factory passes on. The dispose handler becomes its
  `parent`, the validator whose list the handler edits. Disposal is wired through the dispose
  handler there, but it is not implemented in `Validator.cs`. `Dispose` is therefore modelled on
  the behaviour the tests expect (`Starcounter.Validation.Tests/ValidatorTests.cs:181-220`): a
  one-way flag, plus removal from the parent's list.
- `Starcounter.Validation/IValidatorBuilder.cs:14-15` says `ValidateAll` also calls
  `IValidatableObject.Validate` on a view-model that implements it. `Validator.cs:50-64` never
  does, so `ValidateAll` here covers only the registered properties and the sub-validators.
- `Starcounter.Validation/IValidatorBuilder.cs:36` says the presenter can not be null.
  `ValidatorBuilder.cs:125-129` accepts null, so `WithResultsPresenter` here accepts `None`, and
  only `Build` refuses it.

## Model

| member | source | states |
|---|---|---|
| Annotations.Errors | Starcounter.Validation/Validator.cs:83-86 | the failing attributes' messages: never more of them than there are attributes |
| Annotations.FailingIndicesAreTheFailures | Starcounter.Validation/Validator.cs:83-86 | the reference list of failing positions is increasing, in range, and holds exactly the positions whose attribute fails |
| Annotations.ErrorsAreFailingMessages | Starcounter.Validation/Validator.cs:83-87 | the presenter receives one message per failing attribute, each the failure message of that attribute, in declaration order |
| Annotations.PassesIffNoAttributeFails | Starcounter.Validation/Validator.cs:83-89 | the message list is empty exactly when no attribute fails |
| Lists.IndexOf | Starcounter.Validation.Tests/ValidatorTests.cs:181-193 | the position found holds the element, and no earlier position does |
| Lists.RemoveFirst | Starcounter.Validation.Tests/ValidatorTests.cs:181-193 | removing an element that is present drops its first occurrence and keeps the other elements in order: putting it back at the position where it was first found gives the old list (one element fewer, the same multiset less that one); a missing element leaves the list as it was |
| Lists.RemoveFirstOfDistinct | Starcounter.Validation.Tests/ValidatorTests.cs:181-193 | removing a validator from a duplicate-free list removes it altogether, keeps every other one, keeps the list duplicate-free, and shortens it by one exactly when it was there |
| PropertyRegistry.Adapted | Starcounter.Validation/ValidatorBuilder.cs:148-156 | the declared attributes in order, same count, each passed once through the adapter when there is one and unchanged otherwise |
| PropertyRegistry.Register | Starcounter.Validation/ValidatorBuilder.cs:79-122 | a successful registration had a new name, adds exactly that key at the end of the insertion order, keeps every other entry, and keeps the registry well formed |
| PropertyRegistry.RegisterErrors | Starcounter.Validation/ValidatorBuilder.cs:81-121 | the five refusals and their order: null name, missing view-model, duplicate (checked before the lookup), no such public property, no getter; a name that passes all five is accepted |
| PropertyRegistry.RegisteredEntry | Starcounter.Validation/ValidatorBuilder.cs:110-119 | the stored entry holds the adapted declared attributes and a getter bound to the view-model and the property |
| Validation.Validator.constructor | Starcounter.Validation/Validator.cs:21-30 | a validator holds the given presenter, registry and view-model, and starts with no sub-validators |
| Validation.Validator.Present | Starcounter.Validation/Validator.cs:77-90 | one presenter call for the property; the result is true exactly when no attribute fails, and exactly when the call carries no message |
| Validation.Validator.Validate | Starcounter.Validation/Validator.cs:33-47 | refuses a disposed validator, then a null name, then a name never added, without calling the presenter; otherwise one call with the failing messages, and true exactly when no attribute fails for the given value |
| Validation.Validator.PropertyPassesIff | Starcounter.Validation/Validator.cs:52-56 | a registered property passes in `ValidateAll` exactly when none of its attributes fails for its getter's current value |
| Validation.Validator.OwnPassIff | Starcounter.Validation/Validator.cs:52-56 | the ANDed outcome of the property loop is true exactly when none of its presenter calls carried an error |
| Validation.Validator.SubsPassIff | Starcounter.Validation/Validator.cs:58-61 | the ANDed outcome of the sub-validator loop is true exactly when none of the sub-trees' presenter calls carried an error |
| Validation.Validator.AllValidIff | Starcounter.Validation/Validator.cs:50-64 | `ValidateAll`'s result is true exactly when no presenter call in the whole tree carried an error |
| Validation.Validator.ValidateAll | Starcounter.Validation/Validator.cs:50-64 | refuses a disposed validator without calling any presenter; otherwise returns the tree's outcome and makes exactly the tree's presenter calls, changing nothing |
| Validation.Validator.ValidateTree | Starcounter.Validation/Validator.cs:52-63 | every registered property is reported in registration order, then every sub-validator's calls follow in list order; the result is the AND of all of them |
| Validation.Validator.ValidateSubValidators | Starcounter.Validation/Validator.cs:58-61 | the sub-validators' calls in list order, and the AND of their outcomes |
| Validation.Validator.CreateSubValidatorBuilder | Starcounter.Validation/Validator.cs:67-70 | refused once disposed; otherwise a fresh, empty builder with this validator's adapter, bound to this validator |
| Validation.Validator.AddSubValidator | Starcounter.Validation/Validator.cs:72-75 | the validator is appended at the end of the list and nothing else changes |
| Validation.Validator.RemoveSubValidator | Starcounter.Validation.Tests/ValidatorTests.cs:181-193 | the list loses the first occurrence of the validator |
| Validation.Validator.Dispose | Starcounter.Validation.Tests/ValidatorTests.cs:181-220 | the validator is disposed for good, its parent no longer lists it (so `ValidateAll` no longer reaches it), and the tree invariant still holds |
| Validation.ValidatorBuilder.constructor | Starcounter.Validation/ValidatorBuilder.cs:45-67 | a top-level builder with an empty registry, no view-model and no presenter, in a new tree with no validators |
| Validation.ValidatorBuilder.ForSubValidator | Starcounter.Validation/ValidatorBuilder.cs:158-161 | a builder with the same adapter whose build handler is bound to the given validator |
| Validation.ValidatorBuilder.WithViewModel | Starcounter.Validation/ValidatorBuilder.cs:70-76 | null is refused and nothing changes; otherwise the view-model and its type are set and the same builder is returned |
| Validation.ValidatorBuilder.AddProperty | Starcounter.Validation/ValidatorBuilder.cs:79-122 | the registry changes exactly as `Register` says, and is left as it was on any refusal; the same builder is returned |
| Validation.ValidatorBuilder.WithResultsPresenter | Starcounter.Validation/ValidatorBuilder.cs:125-129 | sets or overwrites the presenter, nothing else, and returns the same builder |
| Validation.ValidatorBuilder.Properties | Starcounter.Validation/ValidatorBuilder.cs:132 | exactly the names added so far |
| Validation.ValidatorBuilder.Build | Starcounter.Validation/ValidatorBuilder.cs:135-146 | fails exactly when no presenter is set; otherwise a fresh, live validator with the builder's registry, presenter and view-model, appended once at the end of the parent's list when there is a parent, with the tree invariant kept |
| Extensions.RegisterAll | Starcounter.Validation/ValidatorBuilderExtensions.cs:14-22 | registering a list of names keeps the registry well formed and never loses a key |
| Extensions.RegisterAllSucceeds | Starcounter.Validation/ValidatorBuilderExtensions.cs:16-21 | when no name is refused, the given names fill the new positions in the given order, and `Properties` is the old keys plus the given names |
| Extensions.RegisterAllKeepsEntries | Starcounter.Validation/ValidatorBuilderExtensions.cs:16-19 | whatever the outcome, the old names stay first and in order, and every old entry is unchanged (no rollback, no overwrite) |
| Extensions.RegisterAllAccepts | Starcounter.Validation/ValidatorBuilderExtensions.cs:16-19 | names that are present, new, distinct, public and readable, with a view-model bound, are all accepted |
| Extensions.RegisterAllStopsAtFailure | Starcounter.Validation/ValidatorBuilderExtensions.cs:16-19 | a failing call stops at the first refused name: the names before it stay registered, nothing after it is tried |
| Extensions.RegisterAllRejectsDuplicate | Starcounter.Validation/ValidatorBuilderExtensions.cs:16-19 | a name already registered, or repeated in the list, makes the call fail, with "already added" on that name when nothing before it failed |
| Extensions.FailureIsFinal | Starcounter.Validation/ValidatorBuilderExtensions.cs:16-19 | once a prefix of the names fails, the whole call ends with that prefix's outcome |
| Extensions.AddProperties | Starcounter.Validation/ValidatorBuilderExtensions.cs:14-22 | calls `AddProperty` for each name in order and returns the same builder; the registry is what `RegisterAll` gives, the first refusal is the error, and an empty list changes nothing |

## Left out

- Reflection (`GetProperty`, `CanRead`, `GetCustomAttributes`, `MakeGenericMethod`,
  `CreateDelegate`): a view-model type is a map from its public property names to whether the
  property has a getter and the attributes it declares. A getter is a lookup in the object's
  current values.
- What each data-annotation attribute checks (Required, MaxLength, EmailAddress, Compare), and
  the service lookup of `ValidationContext`: an attribute is an opaque function of the value and
  the context. The context carries the view-model's current values and the member name.
- The localization adapter (`LocalizationValidationAttributeAdapter.cs`) calls into a
  localization library. The adapter is an opaque function of the attribute and the view-model
  type.
- Dependency-injection registration (`ValidationServiceCollectionExtensions.cs`), the UI
  form-item extension, and the `IServiceProvider` the builder passes along. None of them affect
  validation.
- `WithViewModelAndAllProperties` appears only in a test and is not part of this model.
- Presenter calls are returned as a sequence, not made on a callback. A presenter that itself
  throws or re-enters the validator is not modelled.
- Attributes and getters are total functions. In C#, an attribute or a property getter that
  throws ends `ValidateAll` midway, after the presenter calls already made. That early exit is
  not modelled.
- Validation.ValidatorBuilder.Build: the validator receives a copy of the registry. In C# it
  shares the builder's dictionary, so an `AddProperty` on the builder after `Build` would also
  reach the validator. That aliasing is not modelled.
- The registry enumerates its names in insertion order, which is what a .NET `Dictionary`
  does when no key is ever removed. The language does not guarantee that order.
- Extensions.AddProperties: a null `properties` array (a `NullReferenceException` in C#) is not
  modelled. The list of names is a sequence, though each name may be null.
- Validation.Validator.Dispose: it is not in `Validator.cs`. The tests show only that a disposed
  validator refuses `Validate`, `ValidateAll` and `CreateSubValidatorBuilder`, and leaves its
  parent's list. They do not show a second dispose or the fate of its own sub-validators. The
  model keeps those sub-validators attached and live, and makes a second dispose change nothing.
- Validation.Validator.ValidateTree: a sub-validator's own disposed check is not repeated,
  because a disposed validator is never in a list (the tree invariant).
- In `Validate` the disposed check comes before the null-name check. `ValidateAll` makes only
  the disposed check. The order is not visible in the sources.

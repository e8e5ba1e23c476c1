/** `ValidatorBuilderExtensions.AddProperties`: `AddProperty` for each name, in the order given,
    until the first one that throws. Nothing is rolled back: the names before the failing one
    stay registered. */
module Extensions {
  import opened Outcomes
  import opened Annotations
  import opened PropertyRegistry
  import opened Validation

  /** What `AddProperties(names)` leaves in the registry and the exception it ends with, if
      any: the names are registered one after the other, and the first rejection stops it. */
  function RegisterAll(registry: Registry, target: ViewModel?, adapter: Option<Adapter>, names: seq<Option<string>>): (r: (Registry, Option<Error>))
    requires registry.WellFormed()
    ensures r.0.WellFormed()
    ensures registry.Keys() <= r.0.Keys()
    decreases |names|
  {
    if names == [] then (registry, None)
    else
      var previous := RegisterAll(registry, target, adapter, names[..|names| - 1]);
      if previous.1.Some? then previous
      else
        match Register(previous.0, target, adapter, names[|names| - 1])
        case Ok(next) => (next, None)
        case Err(e) => (previous.0, Some(e))
  }

  /** When no name is rejected, every name was present, and the registered names are the old
      ones followed by the given ones, in order, with no duplicate among them: `Properties`
      is the old keys plus the given names. */
  lemma {:induction false} RegisterAllSucceeds(registry: Registry, target: ViewModel?, adapter: Option<Adapter>, names: seq<Option<string>>)
    requires registry.WellFormed()
    requires RegisterAll(registry, target, adapter, names).1.None?
    ensures var r := RegisterAll(registry, target, adapter, names).0;
      && |r.names| == |registry.names| + |names|
      && (forall i :: 0 <= i < |names| ==> names[i] == Some(r.names[|registry.names| + i]))
      && (forall n :: n in r.Keys() <==> n in registry.Keys() || Some(n) in names)
    decreases |names|
  {
    if names != [] {
      var init, last := names[..|names| - 1], names[|names| - 1];
      assert names == init + [last];
      RegisterAllSucceeds(registry, target, adapter, init);
      var previous := RegisterAll(registry, target, adapter, init).0;
      var r := Register(previous, target, adapter, last).value;
      assert RegisterAll(registry, target, adapter, names).0 == r;
      assert r.names == previous.names + [last.value];
      forall i | 0 <= i < |names| ensures names[i] == Some(r.names[|registry.names| + i]) {
        if i < |init| {
          assert names[i] == init[i] && r.names[|registry.names| + i] == previous.names[|registry.names| + i];
        }
      }
      forall n ensures n in r.Keys() <==> n in registry.Keys() || Some(n) in names {
        assert Some(n) in names <==> Some(n) in init || Some(n) == last;
      }
    }
  }

  /** Whatever the outcome, nothing registered before is lost or changed: the old names stay
      first, in their order, with their entries. */
  lemma {:induction false} RegisterAllKeepsEntries(registry: Registry, target: ViewModel?, adapter: Option<Adapter>, names: seq<Option<string>>)
    requires registry.WellFormed()
    ensures var r := RegisterAll(registry, target, adapter, names).0;
      && |registry.names| <= |r.names| && r.names[..|registry.names|] == registry.names
      && forall n | n in registry.data :: n in r.data && r.data[n] == registry.data[n]
    decreases |names|
  {
    if names != [] {
      var init := names[..|names| - 1];
      RegisterAllKeepsEntries(registry, target, adapter, init);
      var previous := RegisterAll(registry, target, adapter, init);
      if previous.1.None? && Register(previous.0, target, adapter, names[|names| - 1]).Ok? {
        var r := Register(previous.0, target, adapter, names[|names| - 1]).value;
        assert r.names[..|registry.names|] == previous.0.names[..|registry.names|];
      }
    }
  }

  /** The converse: names that are all present, new, distinct, public and readable, given a
      view-model, are all accepted. */
  lemma {:induction false} RegisterAllAccepts(registry: Registry, target: ViewModel?, adapter: Option<Adapter>, names: seq<Option<string>>)
    requires registry.WellFormed() && target != null
    requires forall i :: 0 <= i < |names| ==>
      && names[i].Some? && names[i].value !in registry.Keys()
      && names[i].value in target.objectType.properties && target.objectType.properties[names[i].value].canRead
    requires forall i, j :: 0 <= i < j < |names| ==> names[i] != names[j]
    ensures RegisterAll(registry, target, adapter, names).1.None?
    decreases |names|
  {
    if names != [] {
      var init, last := names[..|names| - 1], names[|names| - 1];
      RegisterAllAccepts(registry, target, adapter, init);
      RegisterAllSucceeds(registry, target, adapter, init);
      var previous := RegisterAll(registry, target, adapter, init).0;
      assert last !in init;
      assert last.value !in previous.Keys();
      RegisterErrors(previous, target, adapter, last);
    }
  }

  /** The names before position `k` were all registered, the name at `k` was refused, and the
      call ended there, with the registry the prefix left and that refusal as its error. */
  ghost predicate StoppedAt(registry: Registry, target: ViewModel?, adapter: Option<Adapter>, names: seq<Option<string>>, k: nat)
    requires registry.WellFormed() && k < |names|
  {
    var prefix := RegisterAll(registry, target, adapter, names[..k]);
    && prefix.1.None?
    && Register(prefix.0, target, adapter, names[k]).Err?
    && RegisterAll(registry, target, adapter, names) == (prefix.0, Some(Register(prefix.0, target, adapter, names[k]).error))
  }

  /** A rejected name stops the loop there: nothing after it is attempted and nothing before
      it is rolled back. */
  lemma {:induction false} RegisterAllStopsAtFailure(registry: Registry, target: ViewModel?, adapter: Option<Adapter>, names: seq<Option<string>>)
    requires registry.WellFormed()
    requires RegisterAll(registry, target, adapter, names).1.Some?
    ensures exists k :: 0 <= k < |names| && StoppedAt(registry, target, adapter, names, k)
    decreases |names|
  {
    var k := |names| - 1;
    var init := names[..k];
    var previous := RegisterAll(registry, target, adapter, init);
    if previous.1.Some? {
      assert RegisterAll(registry, target, adapter, names) == previous;
      RegisterAllStopsAtFailure(registry, target, adapter, init);
      var j :| 0 <= j < |init| && StoppedAt(registry, target, adapter, init, j);
      assert init[..j] == names[..j] && init[j] == names[j];
      assert StoppedAt(registry, target, adapter, names, j);
    } else {
      assert StoppedAt(registry, target, adapter, names, k);
    }
  }

  /** A name that is already registered, or that occurs earlier in the same call, is refused
      when its turn comes: the call fails, and if nothing before it failed, it fails on exactly
      that name with "already added" (given a view-model, whose absence is refused first). */
  lemma RegisterAllRejectsDuplicate(registry: Registry, target: ViewModel?, adapter: Option<Adapter>, names: seq<Option<string>>, j: nat)
    requires registry.WellFormed()
    requires j < |names| && names[j].Some?
    requires names[j].value in registry.Keys() || Some(names[j].value) in names[..j]
    ensures RegisterAll(registry, target, adapter, names).1.Some?
    ensures var prefix := RegisterAll(registry, target, adapter, names[..j]);
      prefix.1.None? && target != null ==>
      RegisterAll(registry, target, adapter, names[..j + 1]) == (prefix.0, Some(PropertyAlreadyAdded(names[j].value)))
  {
    var prefix := RegisterAll(registry, target, adapter, names[..j]);
    assert names[..j + 1][..j] == names[..j];
    if prefix.1.None? {
      RegisterAllSucceeds(registry, target, adapter, names[..j]);
      if Some(names[j].value) in names[..j] {
        var i :| 0 <= i < j && names[..j][i] == Some(names[j].value);
      }
      assert names[j].value in prefix.0.Keys();
    }
    assert RegisterAll(registry, target, adapter, names[..j + 1]).1.Some?;
    FailureIsFinal(registry, target, adapter, names, j + 1);
  }

  /** Once a prefix fails, so does every longer sequence, with the same outcome. */
  lemma {:induction false} FailureIsFinal(registry: Registry, target: ViewModel?, adapter: Option<Adapter>, names: seq<Option<string>>, k: nat)
    requires registry.WellFormed()
    requires k <= |names|
    requires RegisterAll(registry, target, adapter, names[..k]).1.Some?
    ensures RegisterAll(registry, target, adapter, names) == RegisterAll(registry, target, adapter, names[..k])
    decreases |names| - k
  {
    if k < |names| {
      var init := names[..|names| - 1];
      assert init[..k] == names[..k];
      FailureIsFinal(registry, target, adapter, init, k);
      assert RegisterAll(registry, target, adapter, init).1.Some?;
    } else {
      assert names[..k] == names;
    }
  }

  /** `AddProperties(builder, properties)`: calls `AddProperty` for each name in order and
      returns the same builder; the first exception ends the call and leaves the names before
      it registered. An empty list leaves the builder as it was. */
  method AddProperties(builder: ValidatorBuilder, properties: seq<Option<string>>) returns (r: Result<ValidatorBuilder>)
    requires builder.Valid()
    modifies builder
    ensures builder.Valid()
    ensures builder.viewModel == old(builder.viewModel) && builder.presenter == old(builder.presenter)
    ensures var outcome := RegisterAll(old(builder.registry), builder.viewModel, builder.adapter, properties);
      && builder.registry == outcome.0
      && (outcome.1.None? ==> r == Ok(builder))
      && (outcome.1.Some? ==> r == Err(outcome.1.value))
    ensures properties == [] ==> r == Ok(builder) && builder.registry == old(builder.registry)
  {
    var i := 0;
    while i < |properties|
      invariant i <= |properties|
      invariant builder.Valid()
      invariant builder.viewModel == old(builder.viewModel) && builder.presenter == old(builder.presenter)
      invariant RegisterAll(old(builder.registry), builder.viewModel, builder.adapter, properties[..i]) == (builder.registry, None)
    {
      var added := builder.AddProperty(properties[i]);
      assert properties[..i + 1][..i] == properties[..i];
      if added.Err? {
        FailureIsFinal(old(builder.registry), builder.viewModel, builder.adapter, properties, i + 1);
        return added;
      }
      i := i + 1;
    }
    assert properties[..i] == properties;
    return Ok(builder);
  }
}

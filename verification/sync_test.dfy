/**
  The table-driven sync test: six cases, each a starting cluster state, a
  controller name and a namespace to sync, with the names of the role
  bindings the sync is expected to create. Running a case builds a client
  and listers from the starting state, walks the registered controller
  names, syncs with the one named by the case, and compares the client's
  action log with the expectation.
 */
module SyncTest {
  import opened Table
  import opened Reconciliation
  import opened Controller

  datatype TestCase = TestCase(
    name: string,
    controller: string,
    startingNamespaces: seq<string>,
    startingRoleBindings: seq<BindingKey>,
    namespaceToSync: string,
    expectedRoleBindingsNames: seq<string>)

  function CreateDefaultAll(): TestCase
  {
    TestCase("create-default-all", "DefaultRoleBindingController",
             ["foo"], [BindingKey("foo", "bar")],
             "foo", [ImagePullers, ImageBuilders, Deployers])
  }

  function CreateBuilder(): TestCase
  {
    TestCase("create-builder", "BuilderRoleBindingController",
             ["foo"], [BindingKey("foo", ImagePullers)],
             "foo", [ImageBuilders])
  }

  function CreateDeployer(): TestCase
  {
    TestCase("create-deployer", "DeployerRoleBindingController",
             ["foo"], [BindingKey("foo", ImageBuilders), BindingKey("foo", ImagePullers)],
             "foo", [Deployers])
  }

  function CreateImagePuller(): TestCase
  {
    TestCase("create-image-puller", "ImagePullerRoleBindingController",
             ["foo"], [BindingKey("foo", "bar")],
             "foo", [ImagePullers])
  }

  function CreateDefaultMissing(): TestCase
  {
    TestCase("create-default-missing", "DefaultRoleBindingController",
             ["foo", "new"], [BindingKey("foo", ImageBuilders), BindingKey("foo", "bar")],
             "foo", [ImagePullers, Deployers])
  }

  function CreateDefaultNone(): TestCase
  {
    TestCase("create-default-none", "DefaultRoleBindingController",
             ["foo"], [BindingKey("foo", ImagePullers), BindingKey("foo", ImageBuilders), BindingKey("foo", Deployers)],
             "foo", [])
  }

  function Tests(): seq<TestCase>
  {
    [CreateDefaultAll(), CreateBuilder(), CreateDeployer(), CreateImagePuller(),
     CreateDefaultMissing(), CreateDefaultNone()]
  }

  /**
    What the test intends of an action log: every action is a create, there
    is one per expected name, and the i-th creates the i-th expected name in
    the synced namespace. The create check is on the recorded verb.
   */
  predicate ActionsMatch(actions: seq<Action>, ns: string, expected: seq<string>)
  {
    (forall i :: 0 <= i < |actions| ==> actions[i].verb == Create)
    && |actions| == |expected|
    && forall i :: 0 <= i < |expected| ==> actions[i].name == expected[i] && actions[i].namespace == ns
  }

  /** A case passes when its controller, if registered, syncs without error and issues exactly the expected creates. */
  predicate CaseHolds(tc: TestCase)
  {
    match VariantNamed(tc.controller)
    case None => true
    case Some(v) =>
      var o := SyncSpec(v, tc.namespaceToSync, SetOf(tc.startingNamespaces), SetOf(tc.startingRoleBindings), {});
      o.result == Synced && o.issued == tc.expectedRoleBindingsNames
  }

  /** A create log matches the expectation exactly when it was issued for the expected names. */
  lemma CreateLogMatches(ns: string, issued: seq<string>, expected: seq<string>)
    ensures ActionsMatch(CreateActions(ns, issued), ns, expected) <==> issued == expected
  {
    CreateActionsShape(ns, issued);
    var log := CreateActions(ns, issued);
    if ActionsMatch(log, ns, expected) {
      forall i | 0 <= i < |issued| ensures issued[i] == expected[i] {
        assert log[i] == Action(Create, ns, issued[i]);
      }
    }
  }

  /**
    Checks the action log as the test intends: each action must be a create;
    the count must match; each create must carry the expected name and the
    synced namespace.
   */
  method CheckCreateActions(allActions: seq<Action>, ns: string, expected: seq<string>) returns (ok: bool)
    ensures ok <==> ActionsMatch(allActions, ns, expected)
  {
    ok := true;
    for i := 0 to |allActions|
      invariant ok <==> forall j :: 0 <= j < i ==> allActions[j].verb == Create
    {
      if allActions[i].verb != Create {
        ok := false;
      }
    }
    if |allActions| != |expected| {
      return false;
    }
    for i := 0 to |expected|
      invariant ok <==> (forall j :: 0 <= j < |allActions| ==> allActions[j].verb == Create)
                        && forall j :: 0 <= j < i ==> allActions[j].name == expected[j] && allActions[j].namespace == ns
    {
      if expected[i] != allActions[i].name {
        ok := false;
      }
      if allActions[i].namespace != ns {
        ok := false;
      }
    }
  }

  /** Runs one case against a fresh client and listers built from its starting state. */
  method RunTestCase(tc: TestCase) returns (passed: bool)
    ensures passed <==> CaseHolds(tc)
  {
    var namespaces := SetOf(tc.startingNamespaces);
    var bindings := SetOf(tc.startingRoleBindings);
    var client := new FakeClient(bindings, {});
    ControllerNamesRoundTrip(Default);
    passed := true;
    for k := 0 to |ControllerNames|
      invariant client.rejects == {}
      invariant tc.controller !in ControllerNames[..k] ==> passed && client.actions == []
      invariant tc.controller in ControllerNames[..k] ==> (passed <==> CaseHolds(tc))
    {
      var cName := ControllerNames[k];
      assert ControllerNames[..k + 1] == ControllerNames[..k] + [cName];
      var v := VariantNamed(cName).value;
      var c := new RoleBindingController(v, client, bindings, namespaces);
      if cName == tc.controller {
        assert cName !in ControllerNames[..k];
        assert VariantNamed(tc.controller) == Some(v);
        var err := c.SyncNamespace(tc.namespaceToSync);
        if err != Synced {
          passed := false;
        } else {
          var o := SyncSpec(v, tc.namespaceToSync, namespaces, bindings, {});
          assert client.actions == CreateActions(tc.namespaceToSync, o.issued);
          CreateLogMatches(tc.namespaceToSync, o.issued, tc.expectedRoleBindingsNames);
          passed := CheckCreateActions(client.actions, tc.namespaceToSync, tc.expectedRoleBindingsNames);
        }
      }
    }
  }

  lemma DistinctNames()
    ensures "bar" != ImagePullers && "bar" != ImageBuilders && "bar" != Deployers
    ensures ImagePullers != ImageBuilders && ImagePullers != Deployers && ImageBuilders != Deployers
  {
  }

  /** create-default-all: an unrelated binding `bar` does not stop the aggregate creating all three, in order. */
  lemma CreateDefaultAllHolds()
    ensures CaseHolds(CreateDefaultAll())
  {
    var tc := CreateDefaultAll();
    DistinctNames();
    AggregateCreatesAllInOrder("foo", SetOf(tc.startingNamespaces), SetOf(tc.startingRoleBindings));
  }

  /** create-builder: the puller binding present, the builder variant creates only the builder binding. */
  lemma CreateBuilderHolds()
    ensures CaseHolds(CreateBuilder())
  {
    var tc := CreateBuilder();
    DistinctNames();
    SingleVariantCreatesOnlyOwn(Builder, "foo", SetOf(tc.startingNamespaces), SetOf(tc.startingRoleBindings));
  }

  /** create-deployer: builder and puller present, the deployer variant creates only the deployer binding. */
  lemma CreateDeployerHolds()
    ensures CaseHolds(CreateDeployer())
  {
    var tc := CreateDeployer();
    DistinctNames();
    SingleVariantCreatesOnlyOwn(Deployer, "foo", SetOf(tc.startingNamespaces), SetOf(tc.startingRoleBindings));
  }

  /** create-image-puller: with only `bar` present, the puller variant creates only the puller binding. */
  lemma CreateImagePullerHolds()
    ensures CaseHolds(CreateImagePuller())
  {
    var tc := CreateImagePuller();
    DistinctNames();
    SingleVariantCreatesOnlyOwn(ImagePuller, "foo", SetOf(tc.startingNamespaces), SetOf(tc.startingRoleBindings));
  }

  /** create-default-missing: builders present, the aggregate creates pullers then deployers, nothing in `new`. */
  lemma CreateDefaultMissingHolds()
    ensures CaseHolds(CreateDefaultMissing())
  {
    var tc := CreateDefaultMissing();
    DistinctNames();
    AggregateCreatesOnlyMissingInOrder("foo", SetOf(tc.startingNamespaces), SetOf(tc.startingRoleBindings));
  }

  /** create-default-none: all three present, the aggregate creates nothing and succeeds. */
  lemma CreateDefaultNoneHolds()
    ensures CaseHolds(CreateDefaultNone())
  {
    var tc := CreateDefaultNone();
    var cached := SetOf(tc.startingRoleBindings);
    CreatesExactlyMissing(Default, "foo", SetOf(tc.startingNamespaces), cached);
    assert Missing("foo", DesiredBindings(Default), cached) == [];
  }

  /** Every case of the table passes. */
  lemma AllTestsHold()
    ensures forall tc :: tc in Tests() ==> CaseHolds(tc)
  {
    CreateDefaultAllHolds();
    CreateBuilderHolds();
    CreateDeployerHolds();
    CreateImagePullerHolds();
    CreateDefaultMissingHolds();
    CreateDefaultNoneHolds();
  }

  /** Runs every case of the table; the test passes as a whole. */
  method TestSync() returns (passed: bool)
    ensures passed
  {
    AllTestsHold();
    var tests := Tests();
    passed := true;
    for i := 0 to |tests|
      invariant passed
    {
      var ok := RunTestCase(tests[i]);
      passed := passed && ok;
    }
  }
}

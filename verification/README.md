# Default role bindings: per-namespace reconciliation

This project models the controller that makes sure every namespace of an
OpenShift cluster carries a fixed set of default role bindings. There are four
controller variants. `DefaultRoleBindingController` is the aggregate one and
owns `system:image-pullers`, `system:image-builders` and `system:deployers`, in
that order. `BuilderRoleBindingController`, `ImagePullerRoleBindingController`
and `DeployerRoleBindingController` each own one of those bindings.

Syncing a namespace works like this. The controller looks the namespace up in
its namespace lister; a namespace the lister does not hold is a successful
no-op. Otherwise it walks its variant's list in order. For each name it asks
the role-binding lister whether the binding exists in that namespace, and
issues a create through the client only when it does not. An "already exists"
reply counts as success. Any other create failure ends the pass with an error,
and the creates already made stay in place.

The table-driven test `TestSync` fixes which client actions a pass issues, in
what order, with which names and in which namespace. None of its cases syncs
an absent namespace or injects a failed create. For those two branches the
model states the reconciler's behaviour as described above.

Modules:

- `Table` (`table.dfy`) holds the registered controller names, the variants
  and the desired-state table. It also holds binding keys (namespace, name),
  recorded client actions, and the helpers `CreateActions` (a log of creates)
  and `Keys` (a set of keys).
- `Reconciliation` (`reconciliation.dfy`) is the pure specification of one
  pass. `Missing` gives the wanted names the lister lacks, in table order.
  `Reconcile` gives the creates issued and the result; it equals
  `StopAtRejected` applied to `Missing`. `SyncSpec` is a whole pass, including
  the absent-namespace no-op. The lemmas give the properties of a pass.
- `Controller` (`controller.dfy`) has two classes. `FakeClient` keeps a store
  and an action log that its methods update. `RoleBindingController` keeps
  the variant, the client and the two listers. Its `SyncNamespace` and the
  loop in `EnsureBindings` are proved to append exactly the creates that
  `SyncSpec` prescribes.
- `SyncTest` (`sync_test.dfy`) holds the six cases of `TestSync` as data. It
  also models the harness: a loop over the controller names that syncs with
  the named one, and the loops that check the action log. It proves that
  every case passes.

## Model

| member | source | states |
|---|---|---|
| `Table.VariantNamed` | pkg/authorization/defaultrolebindings/defaultrolebindings_test.go:19-24 | A registered controller name gives its variant, and that variant's name is the given one. The result is None exactly when the name is not among the four registered names. |
| `Table.ControllerNamesRoundTrip` | pkg/authorization/defaultrolebindings/defaultrolebindings_test.go:19-24 | Every variant's name is registered and parses back to the same variant. The four registered names are distinct, so a test case selects at most one controller. |
| `Table.DesiredBindings` | pkg/authorization/defaultrolebindings/defaultrolebindings_test.go:45-82 | The desired-state table. The aggregate owns pullers, builders and deployers, in that order, as create-default-all fixes (lines 41-45). The image-puller variant owns only pullers, as create-image-puller fixes (lines 78-82). The one-entry builder and deployer lists follow the reconciler's described behaviour, since their cases already hold the other bindings (see the `DesiredBindings` line under Left out). |
| `Table.AggregateIsUnionInOrder` | pkg/authorization/defaultrolebindings/defaultrolebindings_test.go:35-83 | The aggregate list is the puller list, then the builder list, then the deployer list. It has no repeated name. |
| `Table.SingleVariantOwnsOne` | pkg/authorization/defaultrolebindings/defaultrolebindings_test.go:47-83 | Each single variant owns exactly one binding. That binding is among the aggregate's. Two different single variants own different bindings. The cases fix this only for the image-puller variant; for builder and deployer it is the described behaviour (see the `DesiredBindings` line under Left out). |
| `Table.CreateActionsShape` | pkg/authorization/defaultrolebindings/defaultrolebindings_test.go:155-170 | A create log for a list of names has one entry per name. Entry i is a create of name i in the given namespace. |
| `Reconciliation.Missing` | pkg/authorization/defaultrolebindings/defaultrolebindings_test.go:84-97 | The variant's names that the role-binding lister does not hold in the synced namespace, in table order. Bindings already present, such as builders here, are dropped. |
| `Reconciliation.Reconcile` | pkg/authorization/defaultrolebindings/defaultrolebindings_test.go:139-170 | The pass over a present namespace. It walks the table in order, skips names the lister holds, and issues a create for each missing one. An "already exists" reply is success. A rejected create ends the pass with an error naming the binding (modelled failure branch, see Left out). |
| `Reconciliation.MissingMembership` | pkg/authorization/defaultrolebindings/defaultrolebindings_test.go:84-110 | A name is missing exactly when it is wanted and the lister lacks it in that namespace. Nothing is missing exactly when the lister holds every wanted name. |
| `Reconciliation.MissingKeepsTableOrder` | pkg/authorization/defaultrolebindings/defaultrolebindings_test.go:84-97 | The missing names are a subsequence of the table: they keep table order. |
| `Reconciliation.StopAtRejected` | pkg/authorization/defaultrolebindings/defaultrolebindings_test.go:155-167 | Issuing creates for a list of names, in order, until the first rejected one. With nothing rejected this is the whole list, the log the test compares. The stop on rejection is the modelled failure branch (see Left out). |
| `Reconciliation.StopAtRejectedPrefix` | pkg/authorization/defaultrolebindings/defaultrolebindings_test.go:155-167 | On success the walk issues the whole list, in order, which is what the test's log comparison sees. The failure half is modelled behaviour that no test case exercises (see the create-failure line under Left out): the walk issues a prefix of the list, ending with the rejected create, and the error names that binding. |
| `Reconciliation.StopAtRejectedAccepts` | pkg/authorization/defaultrolebindings/defaultrolebindings_test.go:139-142 | With no create rejected the walk returns no error, which every case demands by failing on a non-nil error. The converse and "every create before the last was accepted" are modelled failure behaviour (see the create-failure line under Left out). |
| `Reconciliation.ReconcileIsStopAtRejected` | pkg/authorization/defaultrolebindings/defaultrolebindings_test.go:155-167 | A pass equals creating the missing names, in table order, and stopping at the first rejected create. |
| `Reconciliation.ReconcileIssuesMissingPrefix` | pkg/authorization/defaultrolebindings/defaultrolebindings_test.go:155-167 | On success the creates issued are exactly the missing names, in table order, as the log comparison checks. The failure half is modelled behaviour (see the create-failure line under Left out): a prefix of the missing names, ending with the rejected binding, which the error names. |
| `Reconciliation.ReconcileFailsOnRejected` | pkg/authorization/defaultrolebindings/defaultrolebindings_test.go:139-142 | With no create rejected the pass returns no error, as every case requires. The error when some missing binding's create is rejected, with all earlier creates accepted, is modelled failure behaviour that no test case exercises (see the create-failure line under Left out). |
| `Reconciliation.SyncSpec` | pkg/authorization/defaultrolebindings/defaultrolebindings_test.go:128-142 | One sync of a namespace by the controller wired to the two listers. A namespace the namespace lister lacks gives success and no creates (modelled branch, see Left out). Otherwise it is `Reconcile` over the variant's table and the role-binding lister. |
| `Reconciliation.NoDuplicateCreates` | pkg/authorization/defaultrolebindings/defaultrolebindings_test.go:155-167 | No pass issues two creates for the same binding. |
| `Reconciliation.NeverRecreates` | pkg/authorization/defaultrolebindings/defaultrolebindings_test.go:84-110 | Every create names a binding of the variant's list, in a namespace the lister holds, that the binding lister lacks. A binding that already exists is never created again. |
| `Reconciliation.CreatesExactlyMissing` | pkg/authorization/defaultrolebindings/defaultrolebindings_test.go:139-170 | With no client failure, a pass over a present namespace creates exactly the missing bindings, in table order, and returns no error. |
| `Reconciliation.AbsentNamespaceIsNoOp` | pkg/authorization/defaultrolebindings/defaultrolebindings_test.go:122-125 | Only the starting namespaces are put in the namespace lister. The test never syncs a namespace outside it. The lemma states the modelled branch for that case (see the absent-namespace line under Left out): success, and no creates. |
| `Reconciliation.AggregateMissing` | pkg/authorization/defaultrolebindings/defaultrolebindings_test.go:35-46 | For the aggregate, the missing list holds pullers, builders and deployers in that order. Each one appears exactly when it is absent. |
| `Reconciliation.AggregateCreatesAllInOrder` | pkg/authorization/defaultrolebindings/defaultrolebindings_test.go:35-46 | On a namespace with none of the three bindings, the aggregate issues exactly three creates: pullers, then builders, then deployers. It returns no error. |
| `Reconciliation.AggregateCreatesOnlyMissingInOrder` | pkg/authorization/defaultrolebindings/defaultrolebindings_test.go:84-97 | On a namespace that holds builders but not pullers or deployers, the aggregate creates pullers, then deployers, and nothing else. |
| `Reconciliation.SingleVariantCreatesOnlyOwn` | pkg/authorization/defaultrolebindings/defaultrolebindings_test.go:47-83 | A single variant succeeds. It creates its own binding exactly when the namespace exists and lacks that binding, and otherwise creates nothing. For builder and deployer, the cases show only the instance where the other bindings are already present; the general statement rests on their one-entry lists (see the `DesiredBindings` line under Left out). |
| `Reconciliation.UnrelatedBindingsIgnored` | pkg/authorization/defaultrolebindings/defaultrolebindings_test.go:84-97 | Adding a binding whose name is not on the variant's list, or which lives in another namespace, does not change the pass. Such a binding neither causes nor suppresses a create. |
| `Reconciliation.ReconcileIgnoresUnrelated` | pkg/authorization/defaultrolebindings/defaultrolebindings_test.go:41-45 | The same, for a walk over any list: bindings outside the list or outside the namespace are irrelevant to it. |
| `Reconciliation.SyncComplete` | pkg/authorization/defaultrolebindings/defaultrolebindings_test.go:98-110 | After a successful pass over a present namespace, every binding the variant owns is either held by the lister or was just created in that namespace. |
| `Reconciliation.SecondSyncCreatesNothing` | pkg/authorization/defaultrolebindings/defaultrolebindings_test.go:98-110 | Suppose a pass succeeds and the lister then holds what it created. A second pass then creates nothing and returns no error. |
| `Controller.FakeClient.CreateRoleBinding` | pkg/authorization/defaultrolebindings/defaultrolebindings_test.go:126-144 | Every create is recorded in the action log, whatever its result. A rejected create leaves the store alone. A create of a key already in the store reports "already exists". Any other create adds the key. |
| `Controller.RoleBindingController.SyncNamespace` | pkg/authorization/defaultrolebindings/defaultrolebindings_test.go:139-142 | The error returned is `SyncSpec`'s result. The client's log grows by exactly `SyncSpec`'s creates, all into the synced namespace. The store grows by the accepted ones. Existence is read from the listers, never from the client. |
| `Controller.RoleBindingController.EnsureBindings` | pkg/authorization/defaultrolebindings/defaultrolebindings_test.go:155-170 | The loop over the variant's list appends `Reconcile`'s creates to the log, in order, and adds the accepted ones to the store. It returns `Reconcile`'s result. |
| `SyncTest.CreateLogMatches` | pkg/authorization/defaultrolebindings/defaultrolebindings_test.go:155-170 | The test's check of a create log succeeds exactly when the creates were issued for the expected names, in order. |
| `SyncTest.ActionsMatch` | pkg/authorization/defaultrolebindings/defaultrolebindings_test.go:144-170 | What the test intends of the action log. Every action is a create. There is one per expected name. The i-th names the i-th expected binding, in the synced namespace. |
| `SyncTest.CaseHolds` | pkg/authorization/defaultrolebindings/defaultrolebindings_test.go:139-170 | A case passes when its named controller syncs with no error and its creates are exactly the expected names. A name matching no registered controller syncs nothing and so passes vacuously. |
| `SyncTest.CheckCreateActions` | pkg/authorization/defaultrolebindings/defaultrolebindings_test.go:144-170 | The check loops return true exactly when every action is a create (by its verb) and the count matches. Each create must also name the expected binding in the synced namespace. |
| `SyncTest.RunTestCase` | pkg/authorization/defaultrolebindings/defaultrolebindings_test.go:113-172 | Running a case passes exactly when its controller, if registered, syncs without error and issues exactly the expected creates. |
| `SyncTest.CreateDefaultAll` | pkg/authorization/defaultrolebindings/defaultrolebindings_test.go:35-46 | The case create-default-all: the aggregate, namespace `foo` holding only `bar`, expecting pullers, builders, deployers. |
| `SyncTest.CreateBuilder` | pkg/authorization/defaultrolebindings/defaultrolebindings_test.go:47-58 | The case create-builder: the builder variant, `foo` holding pullers, expecting builders. |
| `SyncTest.CreateDeployer` | pkg/authorization/defaultrolebindings/defaultrolebindings_test.go:59-71 | The case create-deployer: the deployer variant, `foo` holding builders and pullers, expecting deployers. |
| `SyncTest.CreateImagePuller` | pkg/authorization/defaultrolebindings/defaultrolebindings_test.go:72-83 | The case create-image-puller: the image-puller variant, `foo` holding only `bar`, expecting pullers. |
| `SyncTest.CreateDefaultMissing` | pkg/authorization/defaultrolebindings/defaultrolebindings_test.go:84-97 | The case create-default-missing: the aggregate, namespaces `foo` and `new`, `foo` holding builders and `bar`, expecting pullers then deployers. |
| `SyncTest.CreateDefaultNone` | pkg/authorization/defaultrolebindings/defaultrolebindings_test.go:98-110 | The case create-default-none: the aggregate, `foo` holding all three bindings, expecting no creates. |
| `SyncTest.Tests` | pkg/authorization/defaultrolebindings/defaultrolebindings_test.go:35-110 | The test table: the six cases above, in the order of the source. |
| `SyncTest.CreateDefaultAllHolds` | pkg/authorization/defaultrolebindings/defaultrolebindings_test.go:35-46 | Case create-default-all: with only `bar` present, the aggregate creates pullers, builders and deployers. |
| `SyncTest.CreateBuilderHolds` | pkg/authorization/defaultrolebindings/defaultrolebindings_test.go:47-58 | Case create-builder: with pullers present, the builder variant creates only builders. |
| `SyncTest.CreateDeployerHolds` | pkg/authorization/defaultrolebindings/defaultrolebindings_test.go:59-71 | Case create-deployer: with builders and pullers present, the deployer variant creates only deployers. |
| `SyncTest.CreateImagePullerHolds` | pkg/authorization/defaultrolebindings/defaultrolebindings_test.go:72-83 | Case create-image-puller: with only `bar` present, the puller variant creates only pullers. |
| `SyncTest.CreateDefaultMissingHolds` | pkg/authorization/defaultrolebindings/defaultrolebindings_test.go:84-97 | Case create-default-missing: with builders and `bar` present, and a second namespace `new`, the aggregate creates pullers, then deployers, both in `foo`. |
| `SyncTest.CreateDefaultNoneHolds` | pkg/authorization/defaultrolebindings/defaultrolebindings_test.go:98-110 | Case create-default-none: with all three present, the aggregate creates nothing and returns no error. |
| `SyncTest.AllTestsHold` | pkg/authorization/defaultrolebindings/defaultrolebindings_test.go:26-111 | Every case in the table passes. |
| `SyncTest.TestSync` | pkg/authorization/defaultrolebindings/defaultrolebindings_test.go:113-175 | Running every case of the table passes. |

## Left out

- Role references and subject lists inside a binding. Only the (namespace, name) key is modelled, because the test checks only names and namespaces.
- The Kubernetes machinery: indexers, listers, the generic object tracker behind the fake clientset, key functions, and object metadata access. The listers are sets of namespaces and of binding keys. The client is a store and an action log.
- Informer and work-queue dispatch, retries, backoff, and concurrent invocations. A pass is one synchronous call.
- Lister failures other than "not found". A lister over an in-memory index has no other failure, so none is modelled.
- Absent namespace: a namespace absent from the namespace lister is a successful no-op. No case of `TestSync` syncs such a namespace, so this branch is the model's statement of the reconciler's behaviour, not something the test shows.
- Create failure: a create failure other than "already exists" aborts the pass with an error naming the binding, and the creates already made stay in place. No case of `TestSync` injects a failure, so this branch is the model's statement of the reconciler's behaviour. A failure is injected through the client's `rejects` set, in the way a fake-client reactor would inject it.
- The listers are snapshots that the client's writes do not update. So a second pass with the same listers issues the same creates again; the store answers "already exists" and does not change. `SecondSyncCreatesNothing` states idempotence for listers that have caught up with the first pass.
- DesiredBindings: the builder list `[system:image-builders]` and the deployer list `[system:deployers]` are the reconciler's described table, not something `TestSync` pins down. create-builder already holds pullers, and create-deployer already holds builders and pullers. So longer lists that also name those bindings would produce the same expected creates. `SingleVariantOwnsOne` and `SingleVariantCreatesOnlyOwn` rest on these one-entry lists for builder and deployer.
- ActionsMatch: the test accepts an action when it converts to a create action. That interface has the same method set as an update action, so the Go check would also accept an update carrying an object. The model checks the recorded verb, which is what the test evidently means (`CheckCreateActions` follows it). The modelled sync emits only creates, so no proved outcome depends on the difference.
- The controller's `name` string is modelled by its `Variant`. `VariantNamed` maps a registered name to its variant.
- `SyncTest.RunTestCase`: collapses the test's `t.Errorf` / `t.Fatal` reporting into one pass/fail result. Per-subtest logging is not modelled.

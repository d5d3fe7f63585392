/**
  The specification of one reconciliation pass of a namespace: which of a
  variant's bindings are missing from the lister's view, which creates are
  issued for them, and whether the pass succeeds.
 */
module Reconciliation {
  import opened Table

  /** The outcome of a pass: an error naming the binding whose create failed, or success. */
  datatype SyncResult = Synced | CreateFailed(namespace: string, name: string)

  /** The names for which creates were issued, in order, and the result. */
  datatype Outcome = Outcome(issued: seq<string>, result: SyncResult)

  /** The names of `wanted` that `cached` does not hold in namespace `ns`, in table order. */
  function Missing(ns: string, wanted: seq<string>, cached: set<BindingKey>): seq<string>
    decreases |wanted|
  {
    if wanted == [] then []
    else
      (if BindingKey(ns, wanted[0]) in cached then [] else [wanted[0]])
      + Missing(ns, wanted[1..], cached)
  }

  /**
    A name is missing exactly when it is wanted and the lister does not hold
    it; nothing is missing exactly when the lister holds every wanted name.
   */
  lemma {:induction false} MissingMembership(ns: string, wanted: seq<string>, cached: set<BindingKey>)
    ensures forall n :: n in Missing(ns, wanted, cached) <==> n in wanted && BindingKey(ns, n) !in cached
    ensures Missing(ns, wanted, cached) == [] <==> forall n :: n in wanted ==> BindingKey(ns, n) in cached
    ensures |Missing(ns, wanted, cached)| <= |wanted|
    decreases |wanted|
  {
    if wanted != [] {
      MissingMembership(ns, wanted[1..], cached);
      assert forall n :: n in wanted <==> n == wanted[0] || n in wanted[1..];
    }
  }

  /**
    Walks `wanted` in order. A name present in `cached` is skipped; a missing
    one gets a create. A create that is rejected (its key is in `rejects`)
    ends the pass with an error; "already exists" counts as success.
   */
  function Reconcile(ns: string, wanted: seq<string>, cached: set<BindingKey>, rejects: set<BindingKey>): Outcome
    decreases |wanted|
  {
    if wanted == [] then Outcome([], Synced)
    else
      var key := BindingKey(ns, wanted[0]);
      if key in cached then Reconcile(ns, wanted[1..], cached, rejects)
      else if key in rejects then Outcome([wanted[0]], CreateFailed(ns, wanted[0]))
      else
        var rest := Reconcile(ns, wanted[1..], cached, rejects);
        Outcome([wanted[0]] + rest.issued, rest.result)
  }

  /** One step of Reconcile, taken at position `i` of `wanted`. */
  lemma ReconcileStep(ns: string, wanted: seq<string>, i: nat, cached: set<BindingKey>, rejects: set<BindingKey>)
    requires i < |wanted|
    ensures var key := BindingKey(ns, wanted[i]);
            var next := Reconcile(ns, wanted[i + 1..], cached, rejects);
            Reconcile(ns, wanted[i..], cached, rejects)
            == if key in cached then next
               else if key in rejects then Outcome([wanted[i]], CreateFailed(ns, wanted[i]))
               else Outcome([wanted[i]] + next.issued, next.result)
  {
    assert wanted[i..][0] == wanted[i] && wanted[i..][1..] == wanted[i + 1..];
  }

  /**
    Issues a create for each of `names` in order, stopping after the first
    one that is rejected.
   */
  function StopAtRejected(ns: string, names: seq<string>, rejects: set<BindingKey>): Outcome
    decreases |names|
  {
    if names == [] then Outcome([], Synced)
    else if BindingKey(ns, names[0]) in rejects then Outcome([names[0]], CreateFailed(ns, names[0]))
    else
      var rest := StopAtRejected(ns, names[1..], rejects);
      Outcome([names[0]] + rest.issued, rest.result)
  }

  /**
    The creates issued are a prefix of `names`: all of them on success;
    on failure they end with the rejected one, which the error names.
   */
  lemma {:induction false} StopAtRejectedPrefix(ns: string, names: seq<string>, rejects: set<BindingKey>)
    ensures StopAtRejected(ns, names, rejects).issued <= names
    ensures StopAtRejected(ns, names, rejects).result.Synced? ==> StopAtRejected(ns, names, rejects).issued == names
    ensures var o := StopAtRejected(ns, names, rejects);
            o.result.CreateFailed? ==>
              o.issued != [] && o.result == CreateFailed(ns, o.issued[|o.issued| - 1])
              && BindingKey(ns, o.issued[|o.issued| - 1]) in rejects
    decreases |names|
  {
    if names != [] && BindingKey(ns, names[0]) !in rejects {
      StopAtRejectedPrefix(ns, names[1..], rejects);
      assert names == [names[0]] + names[1..];
    }
  }

  /**
    The walk succeeds exactly when no name of `names` is rejected, and every
    create before the last one issued was accepted.
   */
  lemma {:induction false} StopAtRejectedAccepts(ns: string, names: seq<string>, rejects: set<BindingKey>)
    ensures StopAtRejected(ns, names, rejects).result.Synced?
        <==> forall n :: n in names ==> BindingKey(ns, n) !in rejects
    ensures var o := StopAtRejected(ns, names, rejects);
            forall i :: 0 <= i < |o.issued| - 1 ==> BindingKey(ns, o.issued[i]) !in rejects
    decreases |names|
  {
    if names != [] && BindingKey(ns, names[0]) !in rejects {
      StopAtRejectedAccepts(ns, names[1..], rejects);
      assert forall n :: n in names <==> n == names[0] || n in names[1..];
      var o := StopAtRejected(ns, names, rejects);
      var rest := StopAtRejected(ns, names[1..], rejects);
      forall i | 0 <= i < |o.issued| - 1 ensures BindingKey(ns, o.issued[i]) !in rejects {
        if i > 0 {
          assert o.issued[i] == rest.issued[i - 1];
        }
      }
    }
  }

  /** A pass creates the missing names in table order and stops at the first rejected create. */
  lemma {:induction false} ReconcileIsStopAtRejected(ns: string, wanted: seq<string>, cached: set<BindingKey>,
                                                    rejects: set<BindingKey>)
    ensures Reconcile(ns, wanted, cached, rejects) == StopAtRejected(ns, Missing(ns, wanted, cached), rejects)
    decreases |wanted|
  {
    if wanted != [] {
      ReconcileIsStopAtRejected(ns, wanted[1..], cached, rejects);
      var rest := Missing(ns, wanted[1..], cached);
      if BindingKey(ns, wanted[0]) in cached {
        assert Missing(ns, wanted, cached) == rest;
      } else {
        var m := Missing(ns, wanted, cached);
        assert m == [wanted[0]] + rest;
        assert m[0] == wanted[0] && m[1..] == rest;
      }
    }
  }

  /**
    The creates a pass issues are a prefix of the missing names: all of them
    on success; on failure up to and including the rejected one, which the
    error names.
   */
  lemma ReconcileIssuesMissingPrefix(ns: string, wanted: seq<string>, cached: set<BindingKey>, rejects: set<BindingKey>)
    ensures Reconcile(ns, wanted, cached, rejects).issued <= Missing(ns, wanted, cached)
    ensures Reconcile(ns, wanted, cached, rejects).result.Synced?
        ==> Reconcile(ns, wanted, cached, rejects).issued == Missing(ns, wanted, cached)
    ensures var o := Reconcile(ns, wanted, cached, rejects);
            o.result.CreateFailed? ==>
              o.issued != [] && o.result == CreateFailed(ns, o.issued[|o.issued| - 1])
              && BindingKey(ns, o.issued[|o.issued| - 1]) in rejects
  {
    ReconcileIsStopAtRejected(ns, wanted, cached, rejects);
    StopAtRejectedPrefix(ns, Missing(ns, wanted, cached), rejects);
  }

  /**
    A pass fails exactly when the create of some missing binding is
    rejected; the creates before the failing one were all accepted.
   */
  lemma ReconcileFailsOnRejected(ns: string, wanted: seq<string>, cached: set<BindingKey>, rejects: set<BindingKey>)
    ensures Reconcile(ns, wanted, cached, rejects).result.Synced?
        <==> forall n :: n in Missing(ns, wanted, cached) ==> BindingKey(ns, n) !in rejects
    ensures var o := Reconcile(ns, wanted, cached, rejects);
            forall i :: 0 <= i < |o.issued| - 1 ==> BindingKey(ns, o.issued[i]) !in rejects
  {
    ReconcileIsStopAtRejected(ns, wanted, cached, rejects);
    StopAtRejectedAccepts(ns, Missing(ns, wanted, cached), rejects);
  }

  /**
    One pass of variant `v` over namespace `ns`, given the namespaces and
    bindings the listers hold and the keys whose creates the client rejects.
    A namespace the lister does not hold is a successful no-op.
   */
  function SyncSpec(v: Variant, ns: string, namespaces: set<string>, cached: set<BindingKey>,
                    rejects: set<BindingKey>): Outcome
  {
    if ns !in namespaces then Outcome([], Synced)
    else Reconcile(ns, DesiredBindings(v), cached, rejects)
  }

  /** `a` is `b` with some elements dropped, the rest kept in order. */
  predicate IsSubsequence(a: seq<string>, b: seq<string>)
    decreases |b|
  {
    a == [] || (b != [] && ((a[0] == b[0] && IsSubsequence(a[1..], b[1..])) || IsSubsequence(a, b[1..])))
  }

  /** The missing names keep the order of the table. */
  lemma {:induction false} MissingKeepsTableOrder(ns: string, wanted: seq<string>, cached: set<BindingKey>)
    ensures IsSubsequence(Missing(ns, wanted, cached), wanted)
    decreases |wanted|
  {
    if wanted != [] {
      var rest := Missing(ns, wanted[1..], cached);
      MissingKeepsTableOrder(ns, wanted[1..], cached);
      if BindingKey(ns, wanted[0]) in cached {
        assert Missing(ns, wanted, cached) == rest;
      } else {
        var m := Missing(ns, wanted, cached);
        assert m == [wanted[0]] + rest;
        assert m[1..] == rest;
      }
    }
  }

  /** A table without repeated names yields no repeated creates. */
  lemma {:induction false} MissingDistinct(ns: string, wanted: seq<string>, cached: set<BindingKey>)
    requires Distinct(wanted)
    ensures Distinct(Missing(ns, wanted, cached))
    decreases |wanted|
  {
    if wanted != [] {
      assert Distinct(wanted[1..]) by {
        forall i, j | 0 <= i < j < |wanted[1..]| ensures wanted[1..][i] != wanted[1..][j] {
          assert wanted[1..][i] == wanted[i + 1] && wanted[1..][j] == wanted[j + 1];
        }
      }
      MissingDistinct(ns, wanted[1..], cached);
      var rest := Missing(ns, wanted[1..], cached);
      if BindingKey(ns, wanted[0]) !in cached {
        assert wanted[0] !in wanted[1..] by {
          forall j | 0 <= j < |wanted[1..]| ensures wanted[1..][j] != wanted[0] {
            assert wanted[1..][j] == wanted[j + 1];
          }
        }
        MissingMembership(ns, wanted[1..], cached);
        assert wanted[0] !in rest;
        var m := Missing(ns, wanted, cached);
        assert m == [wanted[0]] + rest;
        forall i, j | 0 <= i < j < |m| ensures m[i] != m[j] {
          if i == 0 {
            assert m[j] == rest[j - 1];
            assert m[j] in rest;
          } else {
            assert m[i] == rest[i - 1] && m[j] == rest[j - 1];
          }
        }
      }
    }
  }

  /** No pass issues two creates for the same binding. */
  lemma NoDuplicateCreates(v: Variant, ns: string, namespaces: set<string>, cached: set<BindingKey>,
                           rejects: set<BindingKey>)
    ensures Distinct(SyncSpec(v, ns, namespaces, cached, rejects).issued)
  {
    var o := SyncSpec(v, ns, namespaces, cached, rejects);
    if ns in namespaces {
      AggregateIsUnionInOrder();
      MissingDistinct(ns, DesiredBindings(v), cached);
      ReconcileIssuesMissingPrefix(ns, DesiredBindings(v), cached, rejects);
      var m := Missing(ns, DesiredBindings(v), cached);
      assert o.issued <= m;
      forall i, j | 0 <= i < j < |o.issued| ensures o.issued[i] != o.issued[j] {
        assert o.issued[i] == m[i] && o.issued[j] == m[j];
      }
    }
  }

  /** A binding the lister already holds is never created; every create targets a wanted, absent binding. */
  lemma NeverRecreates(v: Variant, ns: string, namespaces: set<string>, cached: set<BindingKey>,
                       rejects: set<BindingKey>, n: string)
    requires n in SyncSpec(v, ns, namespaces, cached, rejects).issued
    ensures ns in namespaces
    ensures n in DesiredBindings(v)
    ensures BindingKey(ns, n) !in cached
  {
    var o := SyncSpec(v, ns, namespaces, cached, rejects);
    var m := Missing(ns, DesiredBindings(v), cached);
    ReconcileIssuesMissingPrefix(ns, DesiredBindings(v), cached, rejects);
    MissingMembership(ns, DesiredBindings(v), cached);
    var i :| 0 <= i < |o.issued| && o.issued[i] == n;
    assert o.issued[i] == m[i];
  }

  /**
    Without client failures, a pass over a present namespace creates exactly
    the missing bindings, in table order, and succeeds.
   */
  lemma CreatesExactlyMissing(v: Variant, ns: string, namespaces: set<string>, cached: set<BindingKey>)
    requires ns in namespaces
    ensures SyncSpec(v, ns, namespaces, cached, {}) == Outcome(Missing(ns, DesiredBindings(v), cached), Synced)
    ensures IsSubsequence(SyncSpec(v, ns, namespaces, cached, {}).issued, DesiredBindings(v))
  {
    MissingKeepsTableOrder(ns, DesiredBindings(v), cached);
    ReconcileIssuesMissingPrefix(ns, DesiredBindings(v), cached, {});
    ReconcileFailsOnRejected(ns, DesiredBindings(v), cached, {});
  }

  /** A namespace the lister does not hold is reconciled successfully with no creates. */
  lemma AbsentNamespaceIsNoOp(v: Variant, ns: string, namespaces: set<string>, cached: set<BindingKey>,
                              rejects: set<BindingKey>)
    requires ns !in namespaces
    ensures SyncSpec(v, ns, namespaces, cached, rejects) == Outcome([], Synced)
  {
  }

  /** For the aggregate variant, each of the three bindings is missing on its own account, in table order. */
  lemma AggregateMissing(ns: string, cached: set<BindingKey>)
    ensures Missing(ns, DesiredBindings(Default), cached)
         == (if BindingKey(ns, ImagePullers) in cached then [] else [ImagePullers])
          + (if BindingKey(ns, ImageBuilders) in cached then [] else [ImageBuilders])
          + (if BindingKey(ns, Deployers) in cached then [] else [Deployers])
  {
    var w := DesiredBindings(Default);
    assert w[1..] == [ImageBuilders, Deployers] && w[1..][1..] == [Deployers] && w[1..][1..][1..] == [];
  }

  /**
    The aggregate variant on a namespace holding none of the three default
    bindings creates all three: pullers, builders, deployers, in that order.
   */
  lemma AggregateCreatesAllInOrder(ns: string, namespaces: set<string>, cached: set<BindingKey>)
    requires ns in namespaces
    requires forall n :: n in DesiredBindings(Default) ==> BindingKey(ns, n) !in cached
    ensures SyncSpec(Default, ns, namespaces, cached, {}) == Outcome([ImagePullers, ImageBuilders, Deployers], Synced)
  {
    AggregateMissing(ns, cached);
    CreatesExactlyMissing(Default, ns, namespaces, cached);
  }

  /**
    The aggregate variant on a namespace holding only the builder binding of
    the three creates the puller binding and then the deployer binding.
   */
  lemma AggregateCreatesOnlyMissingInOrder(ns: string, namespaces: set<string>, cached: set<BindingKey>)
    requires ns in namespaces
    requires BindingKey(ns, ImageBuilders) in cached
    requires BindingKey(ns, ImagePullers) !in cached && BindingKey(ns, Deployers) !in cached
    ensures SyncSpec(Default, ns, namespaces, cached, {}) == Outcome([ImagePullers, Deployers], Synced)
  {
    AggregateMissing(ns, cached);
    CreatesExactlyMissing(Default, ns, namespaces, cached);
  }

  /** A single variant creates its own binding exactly when the namespace exists and lacks it, and nothing else. */
  lemma SingleVariantCreatesOnlyOwn(v: Variant, ns: string, namespaces: set<string>, cached: set<BindingKey>)
    requires v != Default
    ensures SyncSpec(v, ns, namespaces, cached, {}).result == Synced
    ensures SyncSpec(v, ns, namespaces, cached, {}).issued
         == (if ns in namespaces && BindingKey(ns, OwnedBinding(v)) !in cached then [OwnedBinding(v)] else [])
  {
    SingleVariantOwnsOne(v, v);
    var w := DesiredBindings(v);
    assert w[1..] == [];
    if ns in namespaces {
      ReconcileIssuesMissingPrefix(ns, w, cached, {});
      ReconcileFailsOnRejected(ns, w, cached, {});
    }
  }

  /** Reconcile depends on `cached` only through the keys of `wanted` in `ns`. */
  lemma {:induction false} ReconcileIgnoresUnrelated(ns: string, wanted: seq<string>, cached: set<BindingKey>,
                                                    rejects: set<BindingKey>, k: BindingKey)
    requires k.namespace != ns || k.name !in wanted
    ensures Reconcile(ns, wanted, cached + {k}, rejects) == Reconcile(ns, wanted, cached, rejects)
    decreases |wanted|
  {
    if wanted != [] {
      assert k != BindingKey(ns, wanted[0]);
      assert k.namespace != ns || k.name !in wanted[1..];
      ReconcileIgnoresUnrelated(ns, wanted[1..], cached, rejects, k);
    }
  }

  /**
    A binding with a name outside the variant's table, or in another
    namespace, neither causes nor suppresses a create.
   */
  lemma UnrelatedBindingsIgnored(v: Variant, ns: string, namespaces: set<string>, cached: set<BindingKey>,
                                 rejects: set<BindingKey>, k: BindingKey)
    requires k.namespace != ns || k.name !in DesiredBindings(v)
    ensures SyncSpec(v, ns, namespaces, cached + {k}, rejects) == SyncSpec(v, ns, namespaces, cached, rejects)
  {
    if ns in namespaces {
      ReconcileIgnoresUnrelated(ns, DesiredBindings(v), cached, rejects, k);
    }
  }

  /**
    After a successful pass over a present namespace, every binding the
    variant owns is either held by the lister or was just created.
   */
  lemma SyncComplete(v: Variant, ns: string, namespaces: set<string>, cached: set<BindingKey>,
                     rejects: set<BindingKey>)
    requires ns in namespaces
    requires SyncSpec(v, ns, namespaces, cached, rejects).result == Synced
    ensures forall n :: n in DesiredBindings(v) ==>
              BindingKey(ns, n) in cached + Keys(ns, SyncSpec(v, ns, namespaces, cached, rejects).issued)
  {
    var o := SyncSpec(v, ns, namespaces, cached, rejects);
    KeysMembership(ns, o.issued);
    ReconcileIssuesMissingPrefix(ns, DesiredBindings(v), cached, rejects);
    MissingMembership(ns, DesiredBindings(v), cached);
    forall n | n in DesiredBindings(v)
      ensures BindingKey(ns, n) in cached + Keys(ns, o.issued)
    {
      if BindingKey(ns, n) !in cached {
        assert n in Missing(ns, DesiredBindings(v), cached);
      }
    }
  }

  /**
    Once the lister has caught up with a successful pass, a second pass
    creates nothing and succeeds.
   */
  lemma SecondSyncCreatesNothing(v: Variant, ns: string, namespaces: set<string>, cached: set<BindingKey>,
                                 rejects: set<BindingKey>)
    requires SyncSpec(v, ns, namespaces, cached, rejects).result == Synced
    ensures SyncSpec(v, ns, namespaces, cached + Keys(ns, SyncSpec(v, ns, namespaces, cached, rejects).issued), rejects)
         == Outcome([], Synced)
  {
    if ns in namespaces {
      var o := SyncSpec(v, ns, namespaces, cached, rejects);
      var after := cached + Keys(ns, o.issued);
      SyncComplete(v, ns, namespaces, cached, rejects);
      KeysMembership(ns, o.issued);
      ReconcileIssuesMissingPrefix(ns, DesiredBindings(v), after, rejects);
      ReconcileFailsOnRejected(ns, DesiredBindings(v), after, rejects);
      MissingMembership(ns, DesiredBindings(v), after);
      assert Missing(ns, DesiredBindings(v), after) == [];
    }
  }

  // The walk that EnsureBindings performs, one step at a time.

  /**
    The state of a walk over `wanted` that has looked at the first `i` names,
    issued the creates `done` (none rejected so far), and appended them to the
    action log `actions` (which held `log0` before) and to the store `store`
    (which held `store0`).
   */
  ghost predicate WalkState(ns: string, wanted: seq<string>, cached: set<BindingKey>, rejects: set<BindingKey>,
                            i: nat, done: seq<string>, log0: seq<Action>, actions: seq<Action>,
                            store0: set<BindingKey>, store: set<BindingKey>)
  {
    i <= |wanted|
    && Reconcile(ns, wanted, cached, rejects)
       == Outcome(done + Reconcile(ns, wanted[i..], cached, rejects).issued,
                  Reconcile(ns, wanted[i..], cached, rejects).result)
    && actions == log0 + CreateActions(ns, done)
    && store == store0 + (Keys(ns, done) - rejects)
  }

  lemma WalkStart(ns: string, wanted: seq<string>, cached: set<BindingKey>, rejects: set<BindingKey>,
                  log0: seq<Action>, store0: set<BindingKey>)
    ensures WalkState(ns, wanted, cached, rejects, 0, [], log0, log0, store0, store0)
  {
    assert wanted[0..] == wanted;
    assert log0 + [] == log0;
  }

  /** A name the lister already holds is skipped. */
  lemma WalkSkip(ns: string, wanted: seq<string>, cached: set<BindingKey>, rejects: set<BindingKey>,
                 i: nat, done: seq<string>, log0: seq<Action>, actions: seq<Action>,
                 store0: set<BindingKey>, store: set<BindingKey>)
    requires WalkState(ns, wanted, cached, rejects, i, done, log0, actions, store0, store)
    requires i < |wanted| && BindingKey(ns, wanted[i]) in cached
    ensures WalkState(ns, wanted, cached, rejects, i + 1, done, log0, actions, store0, store)
  {
    ReconcileStep(ns, wanted, i, cached, rejects);
  }

  /** A missing name is created; the create is accepted (created, or already there). */
  lemma WalkCreate(ns: string, wanted: seq<string>, cached: set<BindingKey>, rejects: set<BindingKey>,
                   i: nat, done: seq<string>, log0: seq<Action>, actions: seq<Action>,
                   store0: set<BindingKey>, store: set<BindingKey>)
    requires WalkState(ns, wanted, cached, rejects, i, done, log0, actions, store0, store)
    requires i < |wanted| && BindingKey(ns, wanted[i]) !in cached && BindingKey(ns, wanted[i]) !in rejects
    ensures WalkState(ns, wanted, cached, rejects, i + 1, done + [wanted[i]], log0,
                      actions + [Action(Create, ns, wanted[i])], store0, store + {BindingKey(ns, wanted[i])})
  {
    var name := wanted[i];
    ReconcileStep(ns, wanted, i, cached, rejects);
    CreateActionsAppend(ns, done, [name]);
    assert CreateActions(ns, [name]) == [Action(Create, ns, name)];
    KeysAppend(ns, done, name);
    var next := Reconcile(ns, wanted[i + 1..], cached, rejects);
    assert done + ([name] + next.issued) == (done + [name]) + next.issued;
  }

  /** A missing name whose create is rejected ends the walk with that error. */
  lemma WalkReject(ns: string, wanted: seq<string>, cached: set<BindingKey>, rejects: set<BindingKey>,
                   i: nat, done: seq<string>, log0: seq<Action>, actions: seq<Action>,
                   store0: set<BindingKey>, store: set<BindingKey>)
    requires WalkState(ns, wanted, cached, rejects, i, done, log0, actions, store0, store)
    requires i < |wanted| && BindingKey(ns, wanted[i]) !in cached && BindingKey(ns, wanted[i]) in rejects
    ensures var o := Reconcile(ns, wanted, cached, rejects);
            o.result == CreateFailed(ns, wanted[i])
            && actions + [Action(Create, ns, wanted[i])] == log0 + CreateActions(ns, o.issued)
            && store == store0 + (Keys(ns, o.issued) - rejects)
  {
    var name := wanted[i];
    ReconcileStep(ns, wanted, i, cached, rejects);
    CreateActionsAppend(ns, done, [name]);
    assert CreateActions(ns, [name]) == [Action(Create, ns, name)];
    KeysAppend(ns, done, name);
  }

  /** A walk that has looked at every name ends with success. */
  lemma WalkEnd(ns: string, wanted: seq<string>, cached: set<BindingKey>, rejects: set<BindingKey>,
                done: seq<string>, log0: seq<Action>, actions: seq<Action>,
                store0: set<BindingKey>, store: set<BindingKey>)
    requires WalkState(ns, wanted, cached, rejects, |wanted|, done, log0, actions, store0, store)
    ensures var o := Reconcile(ns, wanted, cached, rejects);
            o.result == Synced
            && actions == log0 + CreateActions(ns, o.issued)
            && store == store0 + (Keys(ns, o.issued) - rejects)
  {
    assert wanted[|wanted|..] == [];
    assert done + [] == done;
  }
}

/**
  The controller and the client it writes through. The client keeps the live
  store of role bindings and the log of actions issued to it; the controller
  reads existence from its listers (a snapshot the client's writes do not
  update) and issues creates through the client.
 */
module Controller {
  import opened Table
  import opened Reconciliation

  /** What a create reports: success, a benign "already exists", or a rejection. */
  datatype CreateResult = Created | AlreadyExists | Rejected

  /**
    An in-memory role-binding client that records every action issued to it.
    `rejects` holds the keys for which an injected failure makes create fail.
   */
  class FakeClient {
    var actions: seq<Action>
    var store: set<BindingKey>
    const rejects: set<BindingKey>

    constructor (objects: set<BindingKey>, rejects: set<BindingKey>)
      ensures actions == [] && store == objects && this.rejects == rejects
    {
      actions := [];
      store := objects;
      this.rejects := rejects;
    }

    /**
      Records a create of binding `name` in namespace `ns`. A rejected key
      fails and changes nothing; a key already in the store reports
      "already exists"; otherwise the binding is added.
     */
    method CreateRoleBinding(ns: string, name: string) returns (r: CreateResult)
      modifies this
      ensures actions == old(actions) + [Action(Create, ns, name)]
      ensures r == Rejected <==> BindingKey(ns, name) in rejects
      ensures r == AlreadyExists <==> BindingKey(ns, name) !in rejects && BindingKey(ns, name) in old(store)
      ensures store == if r == Rejected then old(store) else old(store) + {BindingKey(ns, name)}
    {
      actions := actions + [Action(Create, ns, name)];
      var key := BindingKey(ns, name);
      if key in rejects {
        r := Rejected;
      } else if key in store {
        r := AlreadyExists;
      } else {
        store := store + {key};
        r := Created;
      }
    }
  }

  /** One controller variant wired to its client and its two listers. */
  class RoleBindingController {
    const variant: Variant
    const client: FakeClient
    const bindingLister: set<BindingKey>
    const namespaceLister: set<string>

    constructor (variant: Variant, client: FakeClient, bindingLister: set<BindingKey>, namespaceLister: set<string>)
      ensures this.variant == variant && this.client == client
      ensures this.bindingLister == bindingLister && this.namespaceLister == namespaceLister
    {
      this.variant := variant;
      this.client := client;
      this.bindingLister := bindingLister;
      this.namespaceLister := namespaceLister;
    }

    /**
      Reconciles namespace `ns`: a namespace the lister does not hold is a
      successful no-op; otherwise the variant's bindings are ensured in
      table order. Appends exactly the creates `SyncSpec` prescribes to the
      client's log, and adds every accepted one to the store.
     */
    method SyncNamespace(ns: string) returns (r: SyncResult)
      modifies client
      ensures var o := SyncSpec(variant, ns, namespaceLister, bindingLister, client.rejects);
              r == o.result
              && client.actions == old(client.actions) + CreateActions(ns, o.issued)
              && client.store == old(client.store) + (Keys(ns, o.issued) - client.rejects)
    {
      if ns !in namespaceLister {
        return Synced;
      }
      r := EnsureBindings(ns, DesiredBindings(variant));
    }

    /**
      For each name of `wanted`, in order, creates the binding in `ns` unless
      the binding lister already holds it; an "already exists" reply is
      success, any other failure ends the walk with that error.
     */
    method EnsureBindings(ns: string, wanted: seq<string>) returns (r: SyncResult)
      modifies client
      ensures var o := Reconcile(ns, wanted, bindingLister, client.rejects);
              r == o.result
              && client.actions == old(client.actions) + CreateActions(ns, o.issued)
              && client.store == old(client.store) + (Keys(ns, o.issued) - client.rejects)
    {
      ghost var rejects := client.rejects;
      ghost var log0, store0 := client.actions, client.store;
      ghost var done: seq<string> := [];
      WalkStart(ns, wanted, bindingLister, rejects, log0, store0);
      var i := 0;
      while i < |wanted|
        invariant WalkState(ns, wanted, bindingLister, rejects, i, done, log0, client.actions, store0, client.store)
      {
        var name := wanted[i];
        if BindingKey(ns, name) in bindingLister {
          WalkSkip(ns, wanted, bindingLister, rejects, i, done, log0, client.actions, store0, client.store);
        } else {
          ghost var actions, store := client.actions, client.store;
          var res := client.CreateRoleBinding(ns, name);
          if res == Rejected {
            WalkReject(ns, wanted, bindingLister, rejects, i, done, log0, actions, store0, store);
            return CreateFailed(ns, name);
          }
          WalkCreate(ns, wanted, bindingLister, rejects, i, done, log0, actions, store0, store);
          done := done + [name];
        }
        i := i + 1;
      }
      WalkEnd(ns, wanted, bindingLister, rejects, done, log0, client.actions, store0, client.store);
      return Synced;
    }
  }
}

/**
  The desired-state table of the default role-binding controllers: the four
  controller variants, the names under which they are registered, and the
  ordered list of role bindings each variant must keep in every namespace.
  Also the values shared by the other modules: binding keys and the actions
  a client records.
 */
module Table {

  datatype Option<T> = None | Some(value: T)

  /** The four controller variants. `Default` is the aggregate one. */
  datatype Variant = Default | Builder | ImagePuller | Deployer

  const ImagePullers: string := "system:image-pullers"
  const ImageBuilders: string := "system:image-builders"
  const Deployers: string := "system:deployers"

  /** The registered controller names, in registration order. */
  const ControllerNames: seq<string> := [
    "DefaultRoleBindingController",
    "BuilderRoleBindingController",
    "ImagePullerRoleBindingController",
    "DeployerRoleBindingController"
  ]

  function ControllerName(v: Variant): string
  {
    match v
    case Default => ControllerNames[0]
    case Builder => ControllerNames[1]
    case ImagePuller => ControllerNames[2]
    case Deployer => ControllerNames[3]
  }

  /** The variant registered under `name`, if any. */
  function VariantNamed(name: string): (r: Option<Variant>)
    ensures r.Some? ==> ControllerName(r.value) == name
    ensures r.None? <==> name !in ControllerNames
  {
    if name == ControllerNames[0] then Some(Default)
    else if name == ControllerNames[1] then Some(Builder)
    else if name == ControllerNames[2] then Some(ImagePuller)
    else if name == ControllerNames[3] then Some(Deployer)
    else None
  }

  /** The role bindings a variant owns, in the order they are created. */
  function DesiredBindings(v: Variant): seq<string>
  {
    match v
    case Default => [ImagePullers, ImageBuilders, Deployers]
    case Builder => [ImageBuilders]
    case ImagePuller => [ImagePullers]
    case Deployer => [Deployers]
  }

  predicate Distinct(s: seq<string>)
  {
    forall i, j :: 0 <= i < j < |s| ==> s[i] != s[j]
  }

  /** Every variant is registered under exactly one name, and the name gives the variant back. */
  lemma ControllerNamesRoundTrip(v: Variant)
    ensures ControllerName(v) in ControllerNames
    ensures VariantNamed(ControllerName(v)) == Some(v)
    ensures Distinct(ControllerNames)
  {
  }

  /** The aggregate variant owns the bindings of the three single variants, puller first, then builder, then deployer. */
  lemma AggregateIsUnionInOrder()
    ensures DesiredBindings(Default)
         == DesiredBindings(ImagePuller) + DesiredBindings(Builder) + DesiredBindings(Deployer)
    ensures Distinct(DesiredBindings(Default))
  {
  }

  /** The binding a single (non-aggregate) variant owns. */
  function OwnedBinding(v: Variant): string
    requires v != Default
  {
    match v
    case Builder => ImageBuilders
    case ImagePuller => ImagePullers
    case Deployer => Deployers
  }

  /** A single variant owns exactly its own binding, and no two single variants own the same one. */
  lemma SingleVariantOwnsOne(v: Variant, w: Variant)
    requires v != Default && w != Default
    ensures DesiredBindings(v) == [OwnedBinding(v)]
    ensures OwnedBinding(v) in DesiredBindings(Default)
    ensures v != w ==> OwnedBinding(v) != OwnedBinding(w)
  {
  }

  /** A role binding is identified by its namespace and name. */
  datatype BindingKey = BindingKey(namespace: string, name: string)

  /** The verbs a client can record. */
  datatype Verb = Get | List | Create | Update | Patch | Delete

  /** One recorded client action on a role binding. */
  datatype Action = Action(verb: Verb, namespace: string, name: string)

  /** The create actions for `names`, in order, all into `ns`. */
  function CreateActions(ns: string, names: seq<string>): seq<Action>
    decreases |names|
  {
    if names == [] then [] else [Action(Create, ns, names[0])] + CreateActions(ns, names[1..])
  }

  lemma {:induction false} CreateActionsAppend(ns: string, a: seq<string>, b: seq<string>)
    ensures CreateActions(ns, a + b) == CreateActions(ns, a) + CreateActions(ns, b)
    decreases |a|
  {
    if a != [] {
      assert (a + b)[1..] == a[1..] + b;
      CreateActionsAppend(ns, a[1..], b);
    } else {
      assert a + b == b;
    }
  }

  /** The create log for `names` has one create per name, into `ns`, in the order of `names`. */
  lemma {:induction false} CreateActionsShape(ns: string, names: seq<string>)
    ensures |CreateActions(ns, names)| == |names|
    ensures forall i :: 0 <= i < |names| ==> CreateActions(ns, names)[i] == Action(Create, ns, names[i])
    decreases |names|
  {
    if names != [] {
      CreateActionsShape(ns, names[1..]);
      var r := CreateActions(ns, names);
      assert r == [Action(Create, ns, names[0])] + CreateActions(ns, names[1..]);
      forall i | 0 < i < |names| ensures r[i] == Action(Create, ns, names[i]) {
        assert r[i] == CreateActions(ns, names[1..])[i - 1];
      }
    }
  }

  /** The keys of the bindings named `names` in namespace `ns`. */
  function Keys(ns: string, names: seq<string>): set<BindingKey>
    decreases |names|
  {
    if names == [] then {} else {BindingKey(ns, names[0])} + Keys(ns, names[1..])
  }

  lemma {:induction false} KeysMembership(ns: string, names: seq<string>)
    ensures forall n :: BindingKey(ns, n) in Keys(ns, names) <==> n in names
    ensures forall k :: k in Keys(ns, names) ==> k.namespace == ns
    decreases |names|
  {
    if names != [] {
      KeysMembership(ns, names[1..]);
      assert forall n :: n in names <==> n == names[0] || n in names[1..];
    }
  }

  lemma {:induction false} KeysAppend(ns: string, names: seq<string>, name: string)
    ensures Keys(ns, names + [name]) == Keys(ns, names) + {BindingKey(ns, name)}
    decreases |names|
  {
    if names != [] {
      assert (names + [name])[1..] == names[1..] + [name];
      KeysAppend(ns, names[1..], name);
    } else {
      assert names + [name] == [name];
    }
  }

  /** The elements of `s`, as a set: how a lister indexes a list of starting objects. */
  function SetOf<T(!new)>(s: seq<T>): set<T>
  {
    set x | x in s
  }
}

/** `ConfigParameterGroup`: a named, ordered list of leaf parameters with optional display
    metadata, and its three encodings (settings document, schema, document consumption),
    plus the registry loops of the settings handlers that run them over every group.

    The leaf parameters (`ConfigParameterInterface`) are not part of this model: a
    parameter is a value of an abstract type `P`, and what its own `toJson`,
    `toJsonSchema` and `fromJson` do is supplied as a `Leaf<P>`. */
module ParameterGroups {
  import opened Wrappers
  import opened JsonValues

  /** The three virtual methods of a leaf parameter: `toJson` adds the parameter's
      members to an object, `toJsonSchema` fills a fresh object, `fromJson` reads the
      parameter's new value from its group's object. */
  datatype Leaf<!P> = Leaf(
    toJson: (P, seq<Member>) -> seq<Member>,
    toJsonSchema: P -> seq<Member>,
    fromJson: (P, seq<Member>) -> P)

  /** `ConfigParameterGroupMetadata`: `label()` and `description()` may each be NULL. */
  datatype Metadata = Metadata(labelText: Option<string>, description: Option<string>)

  /** The current group: `metadata` is NULL when `None`. */
  datatype Group<P> = Group(name: string, metadata: Option<Metadata>, params: seq<P>)

  /** The older draft's group, which carries its label directly. */
  datatype DraftGroup<P> = DraftGroup(name: string, labelText: Option<string>, params: seq<P>)

  /** The JSON value stored for a `const char*`: null for NULL. */
  function CStringValue(s: Option<string>): (j: Json)
    ensures s.None? <==> j == JNull
    ensures s.Some? ==> j == JString(s.value)
  {
    if s.Some? then JString(s.value) else JNull
  }

  // ---------------------------------------------------------------- toJson

  /** The object the parameters build, each parameter's `toJson` applied to the result of
      the ones before it. */
  function ParamsToJson<P>(leaf: Leaf<P>, ps: seq<P>, obj: seq<Member>): seq<Member>
    decreases |ps|
  {
    if ps == [] then obj else ParamsToJson(leaf, ps[1..], leaf.toJson(ps[0], obj))
  }

  /** Parameters contribute in list order: the last one runs on what the others built. */
  lemma {:induction false} ParamsToJsonInOrder<P>(leaf: Leaf<P>, ps: seq<P>, p: P, obj: seq<Member>)
    ensures ParamsToJson(leaf, ps + [p], obj) == leaf.toJson(p, ParamsToJson(leaf, ps, obj))
    decreases |ps|
  {
    if ps == [] {
      assert [] + [p] == [p];
    } else {
      assert (ps + [p])[1..] == ps[1..] + [p];
      ParamsToJsonInOrder(leaf, ps[1..], p, leaf.toJson(ps[0], obj));
    }
  }

  /** `ConfigParameterGroup::toJson`: the document gains exactly one member, keyed by the
      group name (an existing member with that key is replaced in place), holding the
      object the parameters build from nothing; every other key is left alone. */
  function GroupToJson<P>(g: Group<P>, leaf: Leaf<P>, doc: seq<Member>): (r: seq<Member>)
    ensures Lookup(r, g.name) == Some(JObject(ParamsToJson(leaf, g.params, [])))
    ensures forall k :: k != g.name ==> Lookup(r, k) == Lookup(doc, k)
    ensures |r| == |doc| + (if Lookup(doc, g.name).Some? then 0 else 1)
  {
    SetMember(doc, g.name, JObject(ParamsToJson(leaf, g.params, [])))
  }

  /** The loop of `handleGetSettings`: every group's `toJson`, in registry order, on one
      document. */
  function RegistryToJson<P>(gs: seq<Group<P>>, leaf: Leaf<P>, doc: seq<Member>): seq<Member>
    decreases |gs|
  {
    if gs == [] then doc else RegistryToJson(gs[1..], leaf, GroupToJson(gs[0], leaf, doc))
  }

  /** Keys that no group is named after keep their value in the aggregate document. */
  lemma {:induction false} RegistryToJsonKeepsOtherKeys<P>(gs: seq<Group<P>>, leaf: Leaf<P>, doc: seq<Member>, key: string)
    requires forall j :: 0 <= j < |gs| ==> gs[j].name != key
    ensures Lookup(RegistryToJson(gs, leaf, doc), key) == Lookup(doc, key)
    decreases |gs|
  {
    if gs != [] {
      assert forall j :: 0 <= j < |gs[1..]| ==> gs[1..][j] == gs[j + 1];
      RegistryToJsonKeepsOtherKeys(gs[1..], leaf, GroupToJson(gs[0], leaf, doc), key);
    }
  }

  /** Group i is the last in the registry with its name, so no later `toJson` overwrites
      its member. */
  predicate LastWithName<P>(gs: seq<Group<P>>, i: nat)
  {
    i < |gs| && forall j :: i < j < |gs| ==> gs[j].name != gs[i].name
  }

  /** In the aggregate document each group's name holds that group's own object, as long
      as no later group has the same name (a later one would overwrite it). */
  lemma {:induction false} RegistryToJsonHoldsEveryGroup<P>(gs: seq<Group<P>>, leaf: Leaf<P>, doc: seq<Member>, i: nat)
    requires LastWithName(gs, i)
    ensures Lookup(RegistryToJson(gs, leaf, doc), gs[i].name) == Some(JObject(ParamsToJson(leaf, gs[i].params, [])))
    decreases |gs|
  {
    assert forall j :: 0 <= j < |gs[1..]| ==> gs[1..][j] == gs[j + 1];
    if i == 0 {
      RegistryToJsonKeepsOtherKeys(gs[1..], leaf, GroupToJson(gs[0], leaf, doc), gs[0].name);
    } else {
      RegistryToJsonHoldsEveryGroup(gs[1..], leaf, GroupToJson(gs[0], leaf, doc), i - 1);
    }
  }

  /** `ConfigParameterGroup::toJson` through an ArduinoJson reference: on a bound object it
      is `GroupToJson`; on a null reference `createNestedObject` yields another null
      reference, so neither the group nor any of its parameters writes anything. */
  function GroupToJsonAt<P>(g: Group<P>, leaf: Leaf<P>, ref: ObjectRef): (r: ObjectRef)
    ensures r.NullRef? <==> ref.NullRef?
    ensures ref.ObjectRef? ==> r.members == GroupToJson(g, leaf, ref.members)
  {
    match ref
    case NullRef => NullRef
    case ObjectRef(ms) => ObjectRef(GroupToJson(g, leaf, ms))
  }

  /** The loop of `handleGetSettings` through a reference: a null reference stays null
      whatever the registry holds; a bound one ends up holding `RegistryToJson`. */
  function RegistryToJsonAt<P>(gs: seq<Group<P>>, leaf: Leaf<P>, ref: ObjectRef): (r: ObjectRef)
    ensures r.NullRef? <==> ref.NullRef?
    ensures ref.ObjectRef? ==> r.members == RegistryToJson(gs, leaf, ref.members)
    decreases |gs|
  {
    if gs == [] then ref else RegistryToJsonAt(gs[1..], leaf, GroupToJsonAt(gs[0], leaf, ref))
  }

  // ---------------------------------------------------------------- toJsonSchema

  /** The `"params"` array: one fresh object per parameter, filled by that parameter's
      `toJsonSchema`, in list order. */
  function ParamSchemas<P>(leaf: Leaf<P>, ps: seq<P>): (a: seq<Json>)
    ensures |a| == |ps|
    ensures forall i :: 0 <= i < |ps| ==> a[i] == JObject(leaf.toJsonSchema(ps[i]))
    decreases |ps|
  {
    if ps == [] then []
    else [JObject(leaf.toJsonSchema(ps[0]))] + ParamSchemas(leaf, ps[1..])
  }

  /** The value under `key` is an array whose entry i is the schema of parameter i. */
  ghost predicate HoldsParamSchemas<P>(obj: seq<Member>, key: string, leaf: Leaf<P>, ps: seq<P>)
  {
    && Lookup(obj, key).Some? && Lookup(obj, key).value.JArray?
    && |Lookup(obj, key).value.items| == |ps|
    && forall i :: 0 <= i < |ps| ==> Lookup(obj, key).value.items[i] == JObject(leaf.toJsonSchema(ps[i]))
  }

  /** A group with metadata whose description is not NULL. */
  predicate HasDescription<P>(g: Group<P>)
  {
    g.metadata.Some? && g.metadata.value.description.Some?
  }

  /** The members `toJsonSchema` sets before `"params"`. */
  function SchemaHead<P>(g: Group<P>): (o: seq<Member>)
    ensures Lookup(o, "name") == Some(JString(g.name))
    ensures Lookup(o, "label") == if g.metadata.Some? then Some(CStringValue(g.metadata.value.labelText)) else None
    ensures Lookup(o, "description") == if HasDescription(g) then Some(JString(g.metadata.value.description.value)) else None
    ensures Lookup(o, "params").None?
    ensures |o| == 1 + (if g.metadata.Some? then 1 else 0) + (if HasDescription(g) then 1 else 0)
  {
    var o1 := SetMember([], "name", JString(g.name));
    if g.metadata.None? then o1
    else
      assert "label" != "name" && "params" != "label";
      var o2 := SetMember(o1, "label", CStringValue(g.metadata.value.labelText));
      if g.metadata.value.description.None? then o2
      else
        assert "description" != "name" && "description" != "label" && "params" != "description";
        SetMember(o2, "description", JString(g.metadata.value.description.value))
  }

  /** `ConfigParameterGroup::toJsonSchema` of the current draft, into the fresh object
      `handleGetSettingsSchema` creates: `"name"` always; `"label"` exactly when there is
      metadata; `"description"` exactly when there is metadata with a non-NULL
      description; `"params"` with one schema per parameter, in order; nothing else. */
  function GroupSchema<P>(g: Group<P>, leaf: Leaf<P>): (r: Json)
    ensures r.JObject?
    ensures Lookup(r.members, "name") == Some(JString(g.name))
    ensures Lookup(r.members, "label") == if g.metadata.Some? then Some(CStringValue(g.metadata.value.labelText)) else None
    ensures Lookup(r.members, "description") == if HasDescription(g) then Some(JString(g.metadata.value.description.value)) else None
    ensures HoldsParamSchemas(r.members, "params", leaf, g.params)
    ensures |r.members| == 2 + (if g.metadata.Some? then 1 else 0) + (if HasDescription(g) then 1 else 0)
  {
    var head := SchemaHead(g);
    var schemas := JArray(ParamSchemas(leaf, g.params));
    var r := SetMember(head, "params", schemas);
    assert "params" != "name" && "params" != "label" && "params" != "description";
    JObject(r)
  }

  /** `ConfigParameterGroup::toJsonSchema` of the older draft: `"name"` and `"label"`
      always (a NULL label becomes null), then `"params"`; nothing else. */
  function DraftGroupSchema<P>(g: DraftGroup<P>, leaf: Leaf<P>): (r: Json)
    ensures r.JObject? && |r.members| == 3
    ensures Lookup(r.members, "name") == Some(JString(g.name))
    ensures Lookup(r.members, "label") == Some(CStringValue(g.labelText))
    ensures HoldsParamSchemas(r.members, "params", leaf, g.params)
  {
    var o1 := SetMember([], "name", JString(g.name));
    var o2 := SetMember(o1, "label", CStringValue(g.labelText));
    JObject(SetMember(o2, "params", JArray(ParamSchemas(leaf, g.params))))
  }

  /** The two drafts' schemas coincide for a group whose metadata has no description, and
      differ for a group without metadata, where only the older draft emits `"label"`. */
  lemma DraftSchemaVersusCurrent<P>(name: string, lbl: Option<string>, ps: seq<P>, leaf: Leaf<P>)
    ensures DraftGroupSchema(DraftGroup(name, lbl, ps), leaf) == GroupSchema(Group(name, Some(Metadata(lbl, None)), ps), leaf)
    ensures Lookup(DraftGroupSchema(DraftGroup(name, lbl, ps), leaf).members, "label").Some?
    ensures Lookup(GroupSchema(Group(name, None, ps), leaf).members, "label").None?
  {
  }

  /** The loop of `handleGetSettingsSchema`: one schema object per group, in registry
      order. */
  function RegistrySchema<P>(gs: seq<Group<P>>, leaf: Leaf<P>): (a: seq<Json>)
    ensures |a| == |gs|
    ensures forall i :: 0 <= i < |gs| ==> a[i] == GroupSchema(gs[i], leaf)
    decreases |gs|
  {
    if gs == [] then [] else [GroupSchema(gs[0], leaf)] + RegistrySchema(gs[1..], leaf)
  }

  // ---------------------------------------------------------------- fromJson

  /** The object `fromJson` hands to the parameters: present only when the document has
      the group's name bound to an object. */
  function GroupObject(doc: seq<Member>, name: string): (r: Option<seq<Member>>)
    ensures r.Some? <==> Lookup(doc, name).Some? && Lookup(doc, name).value.JObject?
    ensures r.Some? ==> Lookup(doc, name) == Some(JObject(r.value))
  {
    match Lookup(doc, name)
    case Some(JObject(obj)) => Some(obj)
    case _ => None
  }

  /** Each parameter's `fromJson`, in list order, all on the same object. */
  function ParamsFromJson<P>(leaf: Leaf<P>, ps: seq<P>, obj: seq<Member>): (r: seq<P>)
    ensures |r| == |ps|
    ensures forall i :: 0 <= i < |ps| ==> r[i] == leaf.fromJson(ps[i], obj)
    decreases |ps|
  {
    if ps == [] then [] else [leaf.fromJson(ps[0], obj)] + ParamsFromJson(leaf, ps[1..], obj)
  }

  /** `ConfigParameterGroup::fromJson`: nothing changes unless the document binds the
      group's name to an object; then every parameter reads that same object. Name and
      metadata never change. */
  function GroupFromJson<P>(g: Group<P>, leaf: Leaf<P>, doc: seq<Member>): (r: Group<P>)
    ensures r.name == g.name && r.metadata == g.metadata && |r.params| == |g.params|
    ensures GroupObject(doc, g.name).None? ==> r == g
    ensures GroupObject(doc, g.name).Some? ==>
              forall i :: 0 <= i < |g.params| ==> r.params[i] == leaf.fromJson(g.params[i], GroupObject(doc, g.name).value)
  {
    match GroupObject(doc, g.name)
    case Some(obj) => g.(params := ParamsFromJson(leaf, g.params, obj))
    case None => g
  }

  /** Only the member named after the group is consulted: two documents that agree on it
      have the same effect. */
  lemma GroupFromJsonReadsOnlyItsKey<P>(g: Group<P>, leaf: Leaf<P>, doc1: seq<Member>, doc2: seq<Member>)
    requires Lookup(doc1, g.name) == Lookup(doc2, g.name)
    ensures GroupFromJson(g, leaf, doc1) == GroupFromJson(g, leaf, doc2)
  {
  }

  /** Leaf parameters whose `fromJson` gives the same value when repeated with the same
      object. */
  ghost predicate IdempotentLeaf<P(!new)>(leaf: Leaf<P>)
  {
    forall p: P, obj: seq<Member> :: leaf.fromJson(leaf.fromJson(p, obj), obj) == leaf.fromJson(p, obj)
  }

  /** Applying the same document twice to a group is applying it once, when the leaves
      are idempotent. */
  lemma GroupFromJsonIdempotent<P(!new)>(g: Group<P>, leaf: Leaf<P>, doc: seq<Member>)
    requires IdempotentLeaf(leaf)
    ensures GroupFromJson(GroupFromJson(g, leaf, doc), leaf, doc) == GroupFromJson(g, leaf, doc)
  {
    var once := GroupFromJson(g, leaf, doc);
    var twice := GroupFromJson(once, leaf, doc);
    if GroupObject(doc, g.name).Some? {
      var obj := GroupObject(doc, g.name).value;
      forall i | 0 <= i < |g.params| ensures twice.params[i] == once.params[i] {
        assert once.params[i] == leaf.fromJson(g.params[i], obj);
      }
    }
  }

  /** The loop of `handlePostSettings`: every group's `fromJson`, in registry order, on the
      same document. */
  function RegistryFromJson<P>(gs: seq<Group<P>>, leaf: Leaf<P>, doc: seq<Member>): (r: seq<Group<P>>)
    ensures |r| == |gs|
    ensures forall i :: 0 <= i < |gs| ==> r[i] == GroupFromJson(gs[i], leaf, doc)
    decreases |gs|
  {
    if gs == [] then [] else [GroupFromJson(gs[0], leaf, doc)] + RegistryFromJson(gs[1..], leaf, doc)
  }

  /** A partial document: every group whose name the document does not bind to an object
      keeps all its parameters, and the others are updated from their own member only. */
  lemma PartialDocumentTouchesOnlyNamedGroups<P>(gs: seq<Group<P>>, leaf: Leaf<P>, doc: seq<Member>, i: nat)
    requires i < |gs|
    ensures Lookup(doc, gs[i].name).None? ==> RegistryFromJson(gs, leaf, doc)[i] == gs[i]
    ensures RegistryFromJson(gs, leaf, doc)[i] == GroupFromJson(gs[i], leaf, [Member(gs[i].name, Lookup(doc, gs[i].name).GetOr(JNull))])
  {
    var single := [Member(gs[i].name, Lookup(doc, gs[i].name).GetOr(JNull))];
    assert Lookup(single, gs[i].name) == Some(Lookup(doc, gs[i].name).GetOr(JNull));
    if Lookup(doc, gs[i].name).None? {
      assert GroupObject(single, gs[i].name).None?;
    } else {
      GroupFromJsonReadsOnlyItsKey(gs[i], leaf, doc, single);
    }
  }

  /** Applying the same document twice to the registry is applying it once, when the
      leaves are idempotent. */
  lemma RegistryFromJsonIdempotent<P(!new)>(gs: seq<Group<P>>, leaf: Leaf<P>, doc: seq<Member>)
    requires IdempotentLeaf(leaf)
    ensures RegistryFromJson(RegistryFromJson(gs, leaf, doc), leaf, doc) == RegistryFromJson(gs, leaf, doc)
  {
    var once := RegistryFromJson(gs, leaf, doc);
    var twice := RegistryFromJson(once, leaf, doc);
    forall i | 0 <= i < |gs| ensures twice[i] == once[i] {
      GroupFromJsonIdempotent(gs[i], leaf, doc);
    }
  }
}

/**
 * What the derive macros of core/codegen/src/lib.rs do at run time:
 * `#[derive(Node)]` fixes a struct's type name, and `#[derive(NodeInterface)]`
 * on an enum emits a `fetch_node` that routes a global ID to the variant
 * whose type name is the ID's prefix, plus the `NodeGlobalID` wrapper scalar.
 *
 * The enum's variants are a `Registry`: one `Variant` per enum case, in
 * declaration order, holding the case's `TYPE_NAME` and its `fetch_by_id`.
 */
module Codegen {
  import opened Wrappers
  import opened Uuids
  import opened Relay

  /** The kind of item a derive is attached to. */
  datatype Data = Struct | Enum | Union

  /** The `#[relay(...)]` options of a `Node` derive. */
  datatype NodeAttributes = NodeAttributes(typeName: Option<string>)

  /** The panics with which the macros reject an item. */
  datatype MacroPanic = NodeNeedsStruct | NodeInterfaceNeedsEnum

  /** `derive_relay_node_object`: the `TYPE_NAME` it emits for a struct `ident`. */
  function DeriveNode(ident: string, attrs: NodeAttributes, data: Data): (r: Result<string, MacroPanic>)
    ensures r.Err? <==> !data.Struct?
    ensures r.Err? ==> r.error == NodeNeedsStruct
    ensures r.Ok? && attrs.typeName.Some? ==> r.value == attrs.typeName.value
    ensures r.Ok? && attrs.typeName.None? ==> r.value == ident
  {
    if !data.Struct? then Err(NodeNeedsStruct)
    else
      match attrs.typeName
      case Some(typeName) => Ok(typeName)
      case None => Ok(ident)
  }

  /** `derive_relay_interface`: the name of the ID wrapper it emits for an enum `ident`. */
  function DeriveNodeInterface(ident: string, data: Data): (r: Result<string, MacroPanic>)
    ensures r.Err? <==> !data.Enum?
    ensures r.Err? ==> r.error == NodeInterfaceNeedsEnum
    ensures r.Ok? ==> |r.value| == |ident| + 8 && r.value[..|ident|] == ident && r.value[|ident|..] == "GlobalID"
  {
    if !data.Enum? then Err(NodeInterfaceNeedsEnum) else Ok(ident + "GlobalID")
  }

  /** One enum case: `<V as NamedNode>::TYPE_NAME` and `<V as NodeInstance>::fetch_by_id`. */
  datatype Variant<-C, N> = Variant(typeName: string, fetchById: (C, Uuid) -> Result<Option<N>, Error>)

  type Registry<-C, N> = seq<Variant<C, N>>

  const NotFoundMessage: string := "A node with the specified id could not be found!"

  /** The error for an unknown prefix and for a fetch that found nothing. */
  const NotFound: Error := Message(NotFoundMessage)

  /**
   * The body of one match arm: parse the ID again as `GlobalId<V>`, call
   * `fetch_by_id` with its UUID, propagate an error and turn `None` into
   * `NotFound`. (The marker type of the parsed handle has no content; `N`
   * stands in for it.)
   */
  function FetchVariant<C, N>(v: Variant<C, N>, ctx: C, relayId: string): (r: Result<N, Error>)
    ensures FromGlobalId(relayId).Err? ==> r == Err(FromGlobalId(relayId).error)
    ensures FromGlobalId(relayId).Ok? ==>
              var fetched := v.fetchById(ctx, FromGlobalId(relayId).value.1);
              (r.Ok? <==> fetched.Ok? && fetched.value.Some?) &&
              (r.Ok? ==> fetched.value.value == r.value) &&
              (fetched.Err? ==> r == Err(fetched.error)) &&
              (fetched == Ok(None) ==> r == Err(NotFound))
  {
    match FromStr<N>(relayId)
    case Err(e) => Err(e)
    case Ok(g) =>
      match v.fetchById(ctx, ToUuid(g))
      case Err(e) => Err(e)
      case Ok(None) => Err(NotFound)
      case Ok(Some(node)) => Ok(node)
  }

  /** The `match prefix.as_str()`: arms in declaration order, `_` last. */
  function MatchPrefix<C, N>(registry: Registry<C, N>, ctx: C, relayId: string, prefix: string): Result<N, Error> {
    if registry == [] then Err(NotFound)
    else if registry[0].typeName == prefix then FetchVariant(registry[0], ctx, relayId)
    else MatchPrefix(registry[1..], ctx, relayId, prefix)
  }

  /** The generated `NodeInterface::fetch_node`. */
  function FetchNode<C, N>(registry: Registry<C, N>, ctx: C, relayId: string): (r: Result<N, Error>)
    ensures FromGlobalId(relayId).Err? ==> r == Err(FromGlobalId(relayId).error)
  {
    match FromGlobalId(relayId)
    case Err(e) => Err(e)
    case Ok((prefix, _)) => MatchPrefix(registry, ctx, relayId, prefix)
  }

  /** Variant `i` is the first whose type name is `prefix`. */
  ghost predicate IsFirstMatch<C, N>(registry: Registry<C, N>, prefix: string, i: int) {
    && 0 <= i < |registry|
    && registry[i].typeName == prefix
    && forall j :: 0 <= j < i ==> registry[j].typeName != prefix
  }

  ghost predicate IsKnown<C, N>(registry: Registry<C, N>, prefix: string) {
    exists i :: 0 <= i < |registry| && registry[i].typeName == prefix
  }

  /** No two variants share a type name. */
  ghost predicate DistinctTypeNames<C, N>(registry: Registry<C, N>) {
    forall i, j :: 0 <= i < j < |registry| ==> registry[i].typeName != registry[j].typeName
  }

  lemma {:induction false} MatchPrefixFirst<C, N>(registry: Registry<C, N>, ctx: C, relayId: string, prefix: string, i: int)
    requires IsFirstMatch(registry, prefix, i)
    ensures MatchPrefix(registry, ctx, relayId, prefix) == FetchVariant(registry[i], ctx, relayId)
  {
    if i > 0 {
      assert registry[0].typeName != prefix;
      MatchPrefixFirst(registry[1..], ctx, relayId, prefix, i - 1);
    }
  }

  lemma {:induction false} MatchPrefixUnknown<C, N>(registry: Registry<C, N>, ctx: C, relayId: string, prefix: string)
    requires !IsKnown(registry, prefix)
    ensures MatchPrefix(registry, ctx, relayId, prefix) == Err(NotFound)
  {
    if registry != [] {
      assert registry[0].typeName != prefix;
      assert !IsKnown(registry[1..], prefix) by {
        forall j | 0 <= j < |registry| - 1 ensures registry[1..][j].typeName != prefix {
          assert registry[1..][j] == registry[j + 1];
        }
      }
      MatchPrefixUnknown(registry[1..], ctx, relayId, prefix);
    }
  }

  lemma FirstMatchExists<C, N>(registry: Registry<C, N>, prefix: string) returns (i: int)
    requires IsKnown(registry, prefix)
    ensures IsFirstMatch(registry, prefix, i)
  {
    var k :| 0 <= k < |registry| && registry[k].typeName == prefix;
    i := 0;
    while registry[i].typeName != prefix
      invariant 0 <= i <= k
      invariant forall j :: 0 <= j < i ==> registry[j].typeName != prefix
      decreases k - i
    {
      i := i + 1;
    }
  }

  /**
   * Dispatch: an ID whose prefix names variant `i` (the first with that name)
   * calls that variant's `fetch_by_id` with exactly the encoded UUID; its
   * `Some` is the result, its `None` is `NotFound`, its error is passed on.
   */
  lemma FetchNodeDispatch<C, N>(registry: Registry<C, N>, ctx: C, relayId: string, prefix: string, uuid: Uuid, i: int)
    requires FromGlobalId(relayId) == Ok((prefix, uuid))
    requires IsFirstMatch(registry, prefix, i)
    ensures var fetched := registry[i].fetchById(ctx, uuid);
      FetchNode(registry, ctx, relayId) ==
        match fetched
        case Ok(Some(node)) => Ok(node)
        case Ok(None) => Err(NotFound)
        case Err(e) => Err(e)
  {
    MatchPrefixFirst(registry, ctx, relayId, prefix, i);
  }

  /** A prefix that names no variant gives `NotFound`, although the ID is valid. */
  lemma FetchNodeUnknownPrefix<C, N>(registry: Registry<C, N>, ctx: C, relayId: string, prefix: string, uuid: Uuid)
    requires FromGlobalId(relayId) == Ok((prefix, uuid))
    requires !IsKnown(registry, prefix)
    ensures FetchNode(registry, ctx, relayId) == Err(NotFound)
  {
    MatchPrefixUnknown(registry, ctx, relayId, prefix);
  }

  /**
   * An unknown prefix and a record that does not exist produce the same
   * error, so a caller cannot tell them apart.
   */
  lemma UnknownPrefixLooksLikeNotFound<C, N>(registry: Registry<C, N>, ctx: C,
                                            unknownId: string, unknownPrefix: string, unknownUuid: Uuid,
                                            missingId: string, prefix: string, uuid: Uuid, i: int)
    requires FromGlobalId(unknownId) == Ok((unknownPrefix, unknownUuid)) && !IsKnown(registry, unknownPrefix)
    requires FromGlobalId(missingId) == Ok((prefix, uuid)) && IsFirstMatch(registry, prefix, i)
    requires registry[i].fetchById(ctx, uuid) == Ok(None)
    ensures FetchNode(registry, ctx, unknownId) == FetchNode(registry, ctx, missingId) == Err(NotFound)
  {
    FetchNodeUnknownPrefix(registry, ctx, unknownId, unknownPrefix, unknownUuid);
    FetchNodeDispatch(registry, ctx, missingId, prefix, uuid, i);
  }

  /**
   * Only the matched variant is consulted: replacing the fetcher of any other
   * variant, even one whose UUIDs coincide, leaves the result unchanged.
   */
  lemma OtherVariantsNotCalled<C, N>(registry: Registry<C, N>, ctx: C, relayId: string, prefix: string, uuid: Uuid,
                                    i: int, j: int, other: (C, Uuid) -> Result<Option<N>, Error>)
    requires FromGlobalId(relayId) == Ok((prefix, uuid))
    requires IsFirstMatch(registry, prefix, i)
    requires 0 <= j < |registry| && j != i
    ensures FetchNode(registry[j := registry[j].(fetchById := other)], ctx, relayId) == FetchNode(registry, ctx, relayId)
  {
    var changed := registry[j := registry[j].(fetchById := other)];
    assert IsFirstMatch(changed, prefix, i);
    FetchNodeDispatch(registry, ctx, relayId, prefix, uuid, i);
    FetchNodeDispatch(changed, ctx, relayId, prefix, uuid, i);
  }

  /**
   * In a registry with distinct type names, the ID that `to_global_id` makes
   * for variant `i` reaches variant `i`'s fetcher with the same UUID.
   */
  lemma FetchNodeOwnId<C, N>(registry: Registry<C, N>, ctx: C, i: int, uuid: Uuid)
    requires DistinctTypeNames(registry)
    requires 0 <= i < |registry| && ':' !in registry[i].typeName
    ensures var fetched := registry[i].fetchById(ctx, uuid);
      FetchNode(registry, ctx, ToGlobalId(registry[i].typeName, uuid)) ==
        match fetched
        case Ok(Some(node)) => Ok(node)
        case Ok(None) => Err(NotFound)
        case Err(e) => Err(e)
  {
    RoundTrip(registry[i].typeName, uuid);
    FetchNodeDispatch(registry, ctx, ToGlobalId(registry[i].typeName, uuid), registry[i].typeName, uuid, i);
  }

  /** The generated `NodeGlobalID(String)` wrapper scalar. */
  datatype NodeGlobalId = NodeGlobalId(value: string)

  /** `From<&GlobalId<V>> for NodeGlobalID`; `typeName` is `V::TYPE_NAME`. */
  function NodeGlobalIdFrom<V>(g: GlobalId<V>, typeName: string): NodeGlobalId {
    NodeGlobalId(GlobalIdToString(g, typeName))
  }

  /** `ScalarType::to_value` for `NodeGlobalID`: the held string, unchanged. */
  function NodeGlobalIdToValue(id: NodeGlobalId): Value {
    String(id.value)
  }

  /**
   * The wrapper shows a handle exactly as the handle's own scalar does, and
   * that value parses back to the handle.
   */
  lemma NodeGlobalIdValue<V>(g: GlobalId<V>, typeName: string)
    requires ':' !in typeName
    ensures NodeGlobalIdToValue(NodeGlobalIdFrom(g, typeName)) == ToValue(g, typeName)
    ensures NodeGlobalIdFrom(g, typeName).value == ToGlobalId(typeName, ToUuid(g))
    ensures ParseValue<V>(NodeGlobalIdToValue(NodeGlobalIdFrom(g, typeName))) == Ok(g)
  {
    ParseToValue(g, typeName);
  }
}

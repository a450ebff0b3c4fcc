/**
 * The registry of the basic example (examples/basic/src): the `Node` enum
 * with its `User` and `Tenant` cases, their derived type names and their stub
 * `fetch_by_id`, which ignore the context and always find a record.
 */
module BasicExample {
  import opened Wrappers
  import opened Uuids
  import opened Relay
  import opened Codegen

  datatype User = User(id: GlobalId<User>, name: string, role: string)

  datatype Tenant = Tenant(id: GlobalId<Tenant>, name: string, description: string)

  /** The example's `enum Node { User(User), Tenant(Tenant) }`. */
  datatype Node = UserNode(user: User) | TenantNode(tenant: Tenant)

  /** `#[relay(type_name = "User")]` on `struct User`. */
  const UserAttributes: NodeAttributes := NodeAttributes(Some("User"))

  /** `struct Tenant` has no `relay` attribute. */
  const TenantAttributes: NodeAttributes := NodeAttributes(None)

  const UserTypeName: string := "User"

  const TenantTypeName: string := "Tenant"

  /** `User`'s type name is the one its attribute gives. */
  lemma UserTypeNameDerived()
    ensures DeriveNode("User", UserAttributes, Struct) == Ok(UserTypeName)
  {
  }

  /** `Tenant`'s type name defaults to the struct's identifier. */
  lemma TenantTypeNameDerived()
    ensures DeriveNode("Tenant", TenantAttributes, Struct) == Ok(TenantTypeName)
  {
  }

  /** `User::fetch_by_id`: never fails, always finds a user with the queried UUID. */
  function UserFetchById<C>(ctx: C, id: Uuid): (r: Result<Option<Node>, Error>)
    ensures r.Ok? && r.value.Some? && r.value.value.UserNode?
    ensures ToUuid(r.value.value.user.id) == id
  {
    Ok(Some(UserNode(User(FromUuid(id), "Oscar", "Testing123"))))
  }

  /** `Tenant::fetch_by_id`: never fails, always finds a tenant with the queried UUID. */
  function TenantFetchById<C>(ctx: C, id: Uuid): (r: Result<Option<Node>, Error>)
    ensures r.Ok? && r.value.Some? && r.value.value.TenantNode?
    ensures ToUuid(r.value.value.tenant.id) == id
  {
    Ok(Some(TenantNode(Tenant(FromUuid(id), "My Company", "Testing123"))))
  }

  /** The variants of `Node`, in declaration order. */
  function Registry<C>(): (r: Codegen.Registry<C, Node>)
    ensures |r| == 2 && DistinctTypeNames(r)
    ensures forall i :: 0 <= i < |r| ==> ':' !in r[i].typeName
  {
    [Variant(UserTypeName, (ctx: C, id: Uuid) => UserFetchById(ctx, id)),
     Variant(TenantTypeName, (ctx: C, id: Uuid) => TenantFetchById(ctx, id))]
  }

  /** `Node::fetch_node` of the example. */
  function FetchExampleNode<C>(ctx: C, relayId: string): Result<Node, Error> {
    FetchNode(Registry(), ctx, relayId)
  }

  /** A `User` ID reaches `User::fetch_by_id` with its UUID, and gives a user. */
  lemma FetchUser<C>(ctx: C, id: Uuid)
    ensures FetchExampleNode(ctx, ToGlobalId(UserTypeName, id)) == Ok(UserNode(User(FromUuid(id), "Oscar", "Testing123")))
  {
    FetchNodeOwnId(Registry<C>(), ctx, 0, id);
  }

  /** A `Tenant` ID reaches `Tenant::fetch_by_id` with its UUID, and never gives a user. */
  lemma FetchTenant<C>(ctx: C, id: Uuid)
    ensures FetchExampleNode(ctx, ToGlobalId(TenantTypeName, id)) == Ok(TenantNode(Tenant(FromUuid(id), "My Company", "Testing123")))
    ensures !FetchExampleNode(ctx, ToGlobalId(TenantTypeName, id)).value.UserNode?
  {
    FetchNodeOwnId(Registry<C>(), ctx, 1, id);
  }

  /** Any other valid prefix is not found, since the stubs themselves never miss. */
  lemma FetchUnknownType<C>(ctx: C, typeName: string, id: Uuid)
    requires ':' !in typeName && typeName != UserTypeName && typeName != TenantTypeName
    ensures FetchExampleNode(ctx, ToGlobalId(typeName, id)) == Err(NotFound)
  {
    RoundTrip(typeName, id);
    FetchNodeUnknownPrefix(Registry<C>(), ctx, ToGlobalId(typeName, id), typeName, id);
  }

  /**
   * A batch of a user ID, a malformed ID and a tenant ID gives a user, `None`
   * and a tenant, in that order.
   */
  lemma FetchBatch<C>(ctx: C, userId: Uuid, malformed: string, tenantId: Uuid)
    requires FromGlobalId(malformed).Err?
    ensures FetchNodes(FetchExampleNode, ctx, [ToGlobalId(UserTypeName, userId), malformed, ToGlobalId(TenantTypeName, tenantId)])
         == [Some(UserNode(User(FromUuid(userId), "Oscar", "Testing123"))),
             None,
             Some(TenantNode(Tenant(FromUuid(tenantId), "My Company", "Testing123")))]
  {
    FetchUser(ctx, userId);
    FetchTenant(ctx, tenantId);
  }
}

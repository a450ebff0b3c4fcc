# async-graphql-relay in Dafny

A verified model of async-graphql-relay. This Rust library implements Relay's
"Global Object Identification" for async-graphql.

A global ID is the base64 text (section 4 of RFC 4648) of the UTF-8 octets of
`<type name>:<UUID>`. The UUID is written in the lowercase hyphenated form of
section 3 of RFC 4122.

A `Node` enum derives `NodeInterface`. Its generated `fetch_node` works in three
steps:
- it decodes an ID;
- it finds the first enum case whose `TYPE_NAME` equals the ID's prefix;
- it calls that case's `fetch_by_id` with the encoded UUID.

`fetch_nodes` does this for a batch. Each failure becomes `None`, and results stay
in input order.

Files (one module each, except `wrappers.dfy`, which holds two):
- `wrappers.dfy`: `Option`, `Result` (module `Wrappers`) and octets (module `Bytes`).
- `base64.dfy`: the RFC 4648 codec (module `Base64`).
- `utf8.dfy`: the RFC 3629 codec (module `Utf8`); `Decode` is `String::from_utf8`.
- `uuid.dfy`: UUID octets, `Uuid::to_string` and `Uuid::parse_str` (module `Uuids`).
- `relay.dfy`: `core/lib/src/lib.rs`. It holds `to_global_id`, `from_global_id`,
  `GlobalId<T>`, its scalar and `fetch_nodes` (module `Relay`).
- `codegen.dfy`: the run-time behaviour of the code the derives in
  `core/codegen/src/lib.rs` generate (module `Codegen`).
- `basic_example.dfy`: the `User`/`Tenant` registry of `examples/basic` (module `BasicExample`).

The enum's cases are modelled as a `Registry`: a sequence of
`Variant(typeName, fetchById)` in declaration order. `T::TYPE_NAME`, which a Rust
trait bound supplies, is passed as an explicit `typeName` argument. The
request context is a type parameter `C` that the core never inspects.

Error behaviour of the code:
- `fetch_node` returns decode errors unchanged. It does not wrap them.
- An unknown prefix gets the same "could not be found" error as a missing
  record. There is no separate unknown-type error.
- A missing `:` and a bad UUID share the message "Invalid global ID provided
  to node query". There is no separate invalid-key error.

## Model

| member | source | states |
|---|---|---|
| Base64.Encode | core/lib/src/lib.rs:50 | `base64::encode` writes four characters per started group of three octets; `DecodeEncode` and `EncodeDecode` make it the inverse of `Decode` |
| Base64.Decode | core/lib/src/lib.rs:54 | `base64::decode` accepts only whole quanta and yields at most three octets per four characters; its partner lemmas tie it to `Encode` in both directions |
| Base64.EncodeVectors | core/lib/src/lib.rs:50 | the alphabet and bit order: "Man", "Ma" and "M" encode to "TWFu", "TWE=" and "TQ==" |
| Base64.DecodeEncode | core/lib/src/lib.rs:50-54 | base64-decoding the encoding of any octets gives those octets back |
| Base64.EncodeDecode | core/lib/src/lib.rs:50-54 | every string that decodes is exactly the encoding of the octets it decodes to (canonical padding and trailing bits) |
| Base64.DecodeSucceedsIffEncoding | core/lib/src/lib.rs:54 | decoding succeeds if and only if the input is the base64 encoding of some octets |
| Utf8.Encode | core/lib/src/lib.rs:48-50 | the UTF-8 octets of a string, at least one per character; `Utf8.DecodeEncode` and `Utf8.EncodeDecode` make it the inverse of `Decode` |
| Utf8.Decode | core/lib/src/lib.rs:55 | `String::from_utf8` yields at most one character per octet; its partner lemmas tie it to `Encode` in both directions |
| Utf8.DecodeEncode | core/lib/src/lib.rs:48-55 | `String::from_utf8` of a string's UTF-8 octets gives the string back |
| Utf8.EncodeDecode | core/lib/src/lib.rs:55 | octets accepted by `String::from_utf8` are exactly the encoding of the resulting string |
| Utf8.DecodeSucceedsIffEncoding | core/lib/src/lib.rs:55 | `String::from_utf8` fails exactly on octets that encode no string |
| Utf8.EncodeAppend | core/lib/src/lib.rs:48 | the UTF-8 octets of `a + b` are those of `a` followed by those of `b` |
| Uuids.Hex | core/lib/src/lib.rs:48 | two lowercase hex digits per octet |
| Uuids.ParseHex | core/lib/src/lib.rs:60 | a successful hex parse yields half as many octets as digits |
| Uuids.ParseHexHex | core/lib/src/lib.rs:48-60 | parsing the hex digits of octets gives the octets back |
| Uuids.HexParseHex | core/lib/src/lib.rs:48-60 | lowercase digits that parse are the hex form of the parsed octets |
| Uuids.Format | core/lib/src/lib.rs:48 | `Uuid::to_string` is 36 characters: hyphens at 8, 13, 18, 23 and lowercase hex digits elsewhere |
| Uuids.Parse | core/lib/src/lib.rs:60 | `Uuid::parse_str` accepts only 32-, 36- or 45-character text; `ParseFormat` and `FormatParseHyphenated` tie it to `Format` |
| Uuids.FormatVector | core/lib/src/lib.rs:48 | `Uuid::to_string` of the basic example's user UUID (octets 92 ba 0c 2d … c3 ff) is "92ba0c2d-4b4e-4e29-91dd-8f96a078c3ff": high nibble first, lowercase digits |
| Uuids.ParseFormat | core/lib/src/lib.rs:48-60 | `Uuid::parse_str` of the formatted UUID gives the UUID back |
| Uuids.FormatParseHyphenated | core/lib/src/lib.rs:48-60 | a lowercase hyphenated string that parses is exactly the formatting of its UUID (the form is canonical) |
| Relay.SplitOnce | core/lib/src/lib.rs:57-59 | `split_once(':')` fails if and only if there is no `:`; otherwise it gives the text before the first `:` (which holds no `:`) and the text after it |
| Relay.SplitOnceAfterPrefix | core/lib/src/lib.rs:57-59 | text `a:b` with no `:` in `a` splits into exactly `a` and `b` |
| Relay.ToGlobalId | core/lib/src/lib.rs:47-51 | `to_global_id(t, u)` base64-decodes to the UTF-8 octets of `t:<u formatted>`, and those decode to that text |
| Relay.FromGlobalId | core/lib/src/lib.rs:53-64 | a decoded type name never contains `:` |
| Relay.RoundTrip | core/lib/src/lib.rs:47-64 | `from_global_id(to_global_id(t, u)) == Ok((t, u))` when `t` has no `:` |
| Relay.DecodeEncodedClear | core/lib/src/lib.rs:53-64 | for an encoded clear text, decoding is decided by its split at the first `:` and the UUID parse of the rest |
| Relay.DecodeColonName | core/lib/src/lib.rs:57-61 | a type name with `:` is cut at its first `:`, and the remainder becomes part of the UUID text |
| Relay.ColonBreaksRoundTrip | core/lib/src/lib.rs:57-59 | a type name containing `:` never round-trips; when decoding succeeds, it returns only the part before the first `:` |
| Relay.DecodeClearText | core/lib/src/lib.rs:53-64 | the encoding of `t:rest`, `t` without `:`, decodes to `(t, uuid)` when `rest` parses and to the invalid-ID error otherwise |
| Relay.FromGlobalIdOk | core/lib/src/lib.rs:53-64 | `from_global_id` returns `Ok((t, u))` if and only if `t` has no `:` and the input is the encoding of `t:rest` for some `rest` that parses to `u` |
| Relay.FromGlobalIdNotBase64 | core/lib/src/lib.rs:54 | the result is the base64 error if and only if the input is no base64 encoding |
| Relay.FromGlobalIdNotUtf8 | core/lib/src/lib.rs:55 | the base64 of some octets gives the UTF-8 error if and only if those octets encode no string |
| Relay.FromGlobalIdNoSeparator | core/lib/src/lib.rs:57-59 | clear text without `:` gives "Invalid global ID provided to node query" |
| Relay.FromGlobalIdBadUuid | core/lib/src/lib.rs:60-61 | a text after the first `:` that is not a UUID gives the same invalid-ID error |
| Relay.FromUuid | core/lib/src/lib.rs:69-73 | `GlobalId::from(uuid)`; `UuidConversions` proves it inverse to `ToUuid` |
| Relay.ToUuid | core/lib/src/lib.rs:75-85 | `Uuid::from(g)`; `UuidConversions` proves it inverse to `FromUuid` |
| Relay.UuidConversions | core/lib/src/lib.rs:66-85 | `GlobalId<T>` to and from `Uuid` are inverse, and handles are equal exactly when their UUIDs are |
| Relay.FromStr | core/lib/src/lib.rs:114-121 | `from_str` fails exactly when `from_global_id` does, and with the same error; on success it is the handle of the decoded UUID |
| Relay.FromStrIgnoresTypeName | core/lib/src/lib.rs:114-121 | the text of any colon-free type name, even another type's, parses to the handle of the encoded UUID |
| Relay.GlobalIdToString | core/lib/src/lib.rs:87-103 | `String::from(g)` and `g.to_string()` are `to_global_id(T::TYPE_NAME, uuid)`; `FromStrToString` proves they parse back to `g` |
| Relay.FromStrToString | core/lib/src/lib.rs:87-121 | `String::from(g)` parses back to `g` |
| Relay.FromStrNeverSwapsUuid | core/lib/src/lib.rs:114-121 | for any type name, even one with `:`, parsing an encoded ID either fails or yields the encoded UUID |
| Relay.ParseAfterSeparator | core/lib/src/lib.rs:60 | `Uuid::parse_str` of any text, then `:`, then a formatted UUID fails or gives exactly that UUID |
| Relay.ParseValue | core/lib/src/lib.rs:125-132 | scalar `parse` gives an expected-type error exactly on non-string values; on a string it succeeds exactly when `from_global_id` does, with that UUID, and otherwise fails with the custom error built from `from_global_id`'s error |
| Relay.ToValue | core/lib/src/lib.rs:134-136 | `to_value` is the string `String::from(g)`; `ParseToValue` proves `parse` recovers `g` |
| Relay.ParseToValue | core/lib/src/lib.rs:123-137 | `parse(to_value(g)) == Ok(g)` |
| Relay.FetchNodes | core/lib/src/lib.rs:25-33 | same length as `ids`; position `i` is `Some(x)` exactly when `fetch_node(ids[i])` is `Ok(x)`, and `None` otherwise |
| Relay.FetchNodesAppend | core/lib/src/lib.rs:25-33 | the batch of `a + b` is the batch of `a` followed by the batch of `b` |
| Wrappers.Result.ToOption | core/lib/src/lib.rs:31 | `Result::ok` is `Some` exactly on `Ok`, carrying its value |
| Codegen.DeriveNode | core/codegen/src/lib.rs:26-40 | rejects everything but a struct; the type name is the `relay(type_name)` attribute when given, otherwise the struct's identifier |
| Codegen.DeriveNodeInterface | core/codegen/src/lib.rs:59-92 | rejects everything but an enum; the wrapper's name is the enum's identifier followed by `GlobalID` |
| Codegen.FetchNode | core/codegen/src/lib.rs:113-114 | any decode error from `from_global_id` is returned unchanged |
| Codegen.FetchVariant | core/codegen/src/lib.rs:80-87 | one arm: a decode error is returned as is; otherwise the variant's fetcher gets the decoded UUID, `Ok(Some(n))` gives `Ok(n)`, `Ok(None)` the not-found error and `Err(e)` gives `e` |
| Codegen.MatchPrefix | core/codegen/src/lib.rs:116-118 | the arms in declaration order with `_` last; `MatchPrefixFirst` and `MatchPrefixUnknown` state which arm runs |
| Codegen.MatchPrefixFirst | core/codegen/src/lib.rs:77-89 | the match runs the arm of the first variant whose type name is the prefix |
| Codegen.MatchPrefixUnknown | core/codegen/src/lib.rs:116-118 | a prefix naming no variant reaches `_` and gives the not-found error |
| Codegen.FirstMatchExists | core/codegen/src/lib.rs:116-117 | a prefix that some variant carries has a first variant carrying it |
| Codegen.FetchNodeDispatch | core/codegen/src/lib.rs:77-89 | a matched prefix calls that variant's `fetch_by_id` with the encoded UUID; `Ok(Some(n))` gives `Ok(n)`, `Ok(None)` the not-found error, and `Err(e)` gives `e` |
| Codegen.FetchNodeUnknownPrefix | core/codegen/src/lib.rs:116-118 | a valid ID with an unregistered prefix gives the not-found error |
| Codegen.UnknownPrefixLooksLikeNotFound | core/codegen/src/lib.rs:86-118 | an unknown prefix and a missing record give the identical error |
| Codegen.OtherVariantsNotCalled | core/codegen/src/lib.rs:77-89 | replacing the fetcher of any unmatched variant leaves `fetch_node`'s result unchanged |
| Codegen.FetchNodeOwnId | core/codegen/src/lib.rs:77-121 | with distinct type names, `to_global_id(V::TYPE_NAME, u)` reaches `V::fetch_by_id(u)` |
| Codegen.NodeGlobalIdFrom | core/codegen/src/lib.rs:69-73 | `NodeGlobalID::from(&g)` wraps `String::from(g)`; see `NodeGlobalIdValue` |
| Codegen.NodeGlobalIdToValue | core/codegen/src/lib.rs:106-108 | `to_value` shows the held string unchanged; see `NodeGlobalIdValue` |
| Codegen.NodeGlobalIdValue | core/codegen/src/lib.rs:69-108 | `NodeGlobalID::from(&g)` holds `to_global_id(V::TYPE_NAME, uuid)`, `to_value` shows it unchanged, and it parses back to `g` |
| BasicExample.UserTypeNameDerived | examples/basic/src/user.rs:8-10 | `User`'s type name is "User", from its attribute |
| BasicExample.TenantTypeNameDerived | examples/basic/src/tenant.rs:8-9 | `Tenant`'s type name defaults to its identifier "Tenant" |
| BasicExample.UserFetchById | examples/basic/src/user.rs:21-29 | never fails, always finds a `User` case whose id wraps the queried UUID |
| BasicExample.TenantFetchById | examples/basic/src/tenant.rs:19-27 | never fails, always finds a `Tenant` case whose id wraps the queried UUID |
| BasicExample.Registry | examples/basic/src/main.rs:17-22 | two variants, distinct colon-free type names |
| BasicExample.FetchExampleNode | examples/basic/src/main.rs:17-22 | the derived `Node::fetch_node` over the `User` and `Tenant` cases; `FetchUser`, `FetchTenant`, `FetchUnknownType` and `FetchBatch` state its results |
| BasicExample.FetchUser | examples/basic/src/user.rs:21-29 | a "User" ID fetches the user "Oscar", role "Testing123", with exactly the encoded UUID |
| BasicExample.FetchTenant | examples/basic/src/tenant.rs:19-27 | a "Tenant" ID fetches the tenant "My Company", "Testing123", with the encoded UUID, never a user |
| BasicExample.FetchUnknownType | core/codegen/src/lib.rs:116-118 | any other colon-free type name gives the not-found error |
| BasicExample.FetchBatch | core/lib/src/lib.rs:25-33 | `[user ID, malformed ID, tenant ID]` gives `[Some(user), None, Some(tenant)]` |

## Left out

- Concurrency: `join_all`, `async`/`await` and `async_trait` are not modelled. `fetch_nodes` is a sequential positional map; its result does not depend on completion order.
- Base64.Decode: the decoder is the strict one of RFC 4648. Depending on its version, the `base64` crate may also accept input without padding. The model rejects such input.
- Uuids.Parse: models the simple, hyphenated and URN forms, with hex digits of either case. The braced form that newer `uuid` versions also accept is rejected.
- Error texts: base64 and UTF-8 errors are the constructors `InvalidBase64` and `InvalidUtf8`, not their `Display` messages. Scalar parse errors keep the `Error` instead of its `{:?}` text.
- The `parse` of the generated `NodeGlobalID` scalar is not modelled, because it is `unimplemented!()` and panics.
- `Debug` for `GlobalId<T>` is not modelled: it is output formatting only. `ToString` is `String::from`, which `GlobalIdToString` models.
- `T::TYPE_NAME` is an explicit argument. The model does not tie it to `T`, since Dafny has no trait constants here.
- Proc-macro mechanics are not modelled: `syn` parsing, `darling` attribute extraction and token emission. Only the behaviour of the generated code is modelled. The generated `impl NodeInterface for Node` names `Node` literally, and the model ignores this.
- The HTTP server, playground and schema wiring of `examples/basic/src/main.rs` are not modelled: they are I/O. The `node` resolver only forwards to `fetch_node`.
- `Value::Number` is an unbounded integer. async-graphql's JSON number type is not modelled.

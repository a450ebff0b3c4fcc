/**
 * The runtime library of async-graphql-relay (core/lib/src/lib.rs): the
 * global-ID codec, the typed handle `GlobalId<T>` with its conversions and
 * GraphQL scalar, and the batch `fetch_nodes` of the `NodeInterface` trait.
 *
 * A global ID is the base64 text of the UTF-8 octets of
 * `<type name>:<hyphenated UUID>`.
 */
module Relay {
  import opened Wrappers
  import opened Bytes
  import Base64
  import Utf8
  import opened Uuids

  /** `async_graphql::Error`, as far as the relay code creates or forwards one. */
  datatype Error =
    | InvalidBase64          // a `base64::DecodeError`, converted by `?`
    | InvalidUtf8            // a `FromUtf8Error`, converted by `?`
    | Message(text: string)  // `Error::new(text)`; also any error a fetcher reports

  const InvalidGlobalIdMessage: string := "Invalid global ID provided to node query"

  /** `str::split_once`: the text before and after the first `sep`. */
  function SplitOnce(s: string, sep: char): (r: Option<(string, string)>)
    ensures r.None? <==> sep !in s
    ensures r.Some? ==> s == r.value.0 + [sep] + r.value.1 && sep !in r.value.0
  {
    if s == [] then None
    else if s[0] == sep then Some(([], s[1..]))
    else
      match SplitOnce(s[1..], sep)
      case None => None
      case Some((before, after)) => Some(([s[0]] + before, after))
  }

  /** What a global ID encodes before base64: `<type name>:<text>`. */
  function ClearText(typeName: string, rest: string): string {
    typeName + ":" + rest
  }

  /** `to_global_id`: each encoding layer decodes back to the one beneath it. */
  function ToGlobalId(typeName: string, id: Uuid): (r: string)
    ensures Base64.Decode(r) == Some(Utf8.Encode(ClearText(typeName, Format(id))))
    ensures Utf8.Decode(Base64.Decode(r).value) == Some(ClearText(typeName, Format(id)))
  {
    var octets := Utf8.Encode(ClearText(typeName, Format(id)));
    Base64.DecodeEncode(octets);
    Utf8.DecodeEncode(ClearText(typeName, Format(id)));
    Base64.Encode(octets)
  }

  /** `from_global_id`: each of its four steps may fail. */
  function FromGlobalId(globalId: string): (r: Result<(string, Uuid), Error>)
    ensures r.Ok? ==> ':' !in r.value.0
  {
    match Base64.Decode(globalId)
    case None => Err(InvalidBase64)
    case Some(decoded) =>
      match Utf8.Decode(decoded)
      case None => Err(InvalidUtf8)
      case Some(clear) =>
        match SplitOnce(clear, ':')
        case None => Err(Message(InvalidGlobalIdMessage))
        case Some((typeName, id)) =>
          match Parse(id)
          case None => Err(Message(InvalidGlobalIdMessage))
          case Some(uuid) => Ok((typeName, uuid))
  }

  /** Splitting at the first separator finds the one after a separator-free prefix. */
  lemma {:induction false} SplitOnceAfterPrefix(a: string, b: string, sep: char)
    requires sep !in a
    ensures SplitOnce(a + [sep] + b, sep) == Some((a, b))
  {
    if a != [] {
      var s := a + [sep] + b;
      assert s[0] == a[0] && s[1..] == a[1..] + [sep] + b;
      SplitOnceAfterPrefix(a[1..], b, sep);
      assert a == [a[0]] + a[1..];
    } else {
      assert a + [sep] + b == [sep] + b;
    }
  }

  /** Appending text after a string that already has a separator leaves the prefix alone. */
  lemma {:induction false} SplitOnceAppend(s: string, t: string, sep: char)
    requires sep in s
    ensures SplitOnce(s + t, sep) == Some((SplitOnce(s, sep).value.0, SplitOnce(s, sep).value.1 + t))
  {
    var before, after := SplitOnce(s, sep).value.0, SplitOnce(s, sep).value.1;
    assert s + t == before + [sep] + (after + t);
    SplitOnceAfterPrefix(before, after + t, sep);
  }

  /** Decoding what `to_global_id` produced gives back the pair, when the name has no `:`. */
  lemma RoundTrip(typeName: string, id: Uuid)
    requires ':' !in typeName
    ensures FromGlobalId(ToGlobalId(typeName, id)) == Ok((typeName, id))
  {
    DecodeClearText(typeName, Format(id));
    ParseFormat(id);
  }

  /** The base64 and UTF-8 steps undo encoding: decoding is decided by the clear text. */
  lemma DecodeEncodedClear(clear: string)
    ensures FromGlobalId(Base64.Encode(Utf8.Encode(clear))) ==
      match SplitOnce(clear, ':')
      case None => Err(Message(InvalidGlobalIdMessage))
      case Some((typeName, rest)) =>
        (match Parse(rest)
         case None => Err(Message(InvalidGlobalIdMessage))
         case Some(u) => Ok((typeName, u)))
  {
    Utf8.DecodeEncode(clear);
    Base64.DecodeEncode(Utf8.Encode(clear));
  }

  /** The clear text of a name that contains `:` splits inside the name. */
  lemma SplitColonName(typeName: string, rest: string)
    requires ':' in typeName
    ensures var (before, after) := SplitOnce(typeName, ':').value;
      SplitOnce(ClearText(typeName, rest), ':') == Some((before, after + ":" + rest))
  {
    var (before, after) := SplitOnce(typeName, ':').value;
    SplitOnceAppend(typeName, ":" + rest, ':');
    assert ClearText(typeName, rest) == typeName + (":" + rest);
    assert after + (":" + rest) == after + ":" + rest;
  }

  /**
   * Decoding the ID of a name that contains `:`: the name is cut at its first
   * `:`, and what follows that `:` becomes part of the UUID text.
   */
  lemma DecodeColonName(typeName: string, id: Uuid)
    requires ':' in typeName
    ensures var (before, after) := SplitOnce(typeName, ':').value;
      FromGlobalId(ToGlobalId(typeName, id)) == match Parse(after + ":" + Format(id))
                                                case None => Err(Message(InvalidGlobalIdMessage))
                                                case Some(u) => Ok((before, u))
  {
    SplitColonName(typeName, Format(id));
    DecodeEncodedClear(ClearText(typeName, Format(id)));
  }

  /**
   * A name that contains `:` does not survive: decoding cuts it at its first
   * `:`, when it decodes at all.
   */
  lemma ColonBreaksRoundTrip(typeName: string, id: Uuid)
    requires ':' in typeName
    ensures FromGlobalId(ToGlobalId(typeName, id)) != Ok((typeName, id))
    ensures FromGlobalId(ToGlobalId(typeName, id)).Ok? ==>
              FromGlobalId(ToGlobalId(typeName, id)).value.0 == SplitOnce(typeName, ':').value.0
  {
    DecodeColonName(typeName, id);
  }

  /** Decoding the encoding of `<name>:<rest>`, for a name without `:`. */
  lemma DecodeClearText(typeName: string, rest: string)
    requires ':' !in typeName
    ensures var g := Base64.Encode(Utf8.Encode(ClearText(typeName, rest)));
      FromGlobalId(g) == match Parse(rest)
                         case None => Err(Message(InvalidGlobalIdMessage))
                         case Some(u) => Ok((typeName, u))
  {
    SplitOnceAfterPrefix(typeName, rest, ':');
    DecodeEncodedClear(ClearText(typeName, rest));
  }

  /**
   * The accepted global IDs are exactly the encodings of `<name>:<rest>` with
   * a name free of `:` and a `rest` that parses as a UUID.
   */
  lemma FromGlobalIdOk(globalId: string, typeName: string, id: Uuid)
    ensures FromGlobalId(globalId) == Ok((typeName, id)) <==>
      ':' !in typeName &&
      exists rest :: Parse(rest) == Some(id) && globalId == Base64.Encode(Utf8.Encode(ClearText(typeName, rest)))
  {
    if FromGlobalId(globalId) == Ok((typeName, id)) {
      var decoded := Base64.Decode(globalId).value;
      var clear := Utf8.Decode(decoded).value;
      var rest := SplitOnce(clear, ':').value.1;
      Base64.EncodeDecode(globalId);
      Utf8.EncodeDecode(decoded);
      assert Parse(rest) == Some(id) && globalId == Base64.Encode(Utf8.Encode(ClearText(typeName, rest)));
    }
    if rest :| ':' !in typeName && Parse(rest) == Some(id) && globalId == Base64.Encode(Utf8.Encode(ClearText(typeName, rest))) {
      DecodeClearText(typeName, rest);
    }
  }

  /** Input that is not base64 fails first, with the base64 error. */
  lemma FromGlobalIdNotBase64(globalId: string)
    ensures FromGlobalId(globalId) == Err(InvalidBase64) <==> forall b :: Base64.Encode(b) != globalId
  {
    Base64.DecodeSucceedsIffEncoding(globalId);
  }

  /** Base64 of octets that are not UTF-8 fails with the UTF-8 error. */
  lemma FromGlobalIdNotUtf8(decoded: seq<byte>)
    ensures FromGlobalId(Base64.Encode(decoded)) == Err(InvalidUtf8) <==> forall s :: Utf8.Encode(s) != decoded
  {
    Base64.DecodeEncode(decoded);
    Utf8.DecodeSucceedsIffEncoding(decoded);
  }

  /** Clear text without `:` is rejected as an invalid global ID. */
  lemma FromGlobalIdNoSeparator(clear: string)
    requires ':' !in clear
    ensures FromGlobalId(Base64.Encode(Utf8.Encode(clear))) == Err(Message(InvalidGlobalIdMessage))
  {
    DecodeEncodedClear(clear);
  }

  /** So is a text after the first `:` that is not a UUID. */
  lemma FromGlobalIdBadUuid(typeName: string, rest: string)
    requires ':' !in typeName && Parse(rest).None?
    ensures FromGlobalId(Base64.Encode(Utf8.Encode(ClearText(typeName, rest)))) == Err(Message(InvalidGlobalIdMessage))
  {
    DecodeClearText(typeName, rest);
  }

  /**
   * `GlobalId<T>`: a UUID and a marker for the type it belongs to. The marker
   * `T` has no runtime content, like Rust's `PhantomData<T>`.
   */
  datatype GlobalId<T> = GlobalId(uuid: Uuid)

  /** `From<Uuid> for GlobalId<T>`. */
  function FromUuid<T>(uuid: Uuid): GlobalId<T> {
    GlobalId(uuid)
  }

  /** `From<GlobalId<T>> for Uuid` (and its by-reference twin). */
  function ToUuid<T>(g: GlobalId<T>): Uuid {
    g.uuid
  }

  /** The two conversions are inverse, and handles are equal when their UUIDs are. */
  lemma UuidConversions<T>(uuid: Uuid, g: GlobalId<T>, h: GlobalId<T>)
    ensures ToUuid(FromUuid<T>(uuid)) == uuid
    ensures FromUuid<T>(ToUuid(g)) == g
    ensures g == h <==> ToUuid(g) == ToUuid(h)
  {
  }

  /**
   * `From<GlobalId<T>> for String`; `typeName` is `T::TYPE_NAME`, the constant
   * that the `NamedNode` bound on `T` supplies.
   */
  function GlobalIdToString<T>(g: GlobalId<T>, typeName: string): string {
    ToGlobalId(typeName, ToUuid(g))
  }

  /** `FromStr for GlobalId<T>`: decodes, then drops the type name. */
  function FromStr<T>(s: string): (r: Result<GlobalId<T>, Error>)
    ensures r.Err? <==> FromGlobalId(s).Err?
    ensures r.Err? ==> r.error == FromGlobalId(s).error
    ensures r.Ok? ==> r.value == FromUuid(FromGlobalId(s).value.1)
  {
    match FromGlobalId(s)
    case Err(e) => Err(e)
    case Ok((_, uuid)) => Ok(FromUuid(uuid))
  }

  /**
   * The type name is not checked: the text of any handle, even one made for
   * another type, parses to a handle for the same UUID.
   */
  lemma FromStrIgnoresTypeName<T>(typeName: string, id: Uuid)
    requires ':' !in typeName
    ensures FromStr<T>(ToGlobalId(typeName, id)) == Ok(FromUuid(id))
  {
    RoundTrip(typeName, id);
  }

  /** Converting a handle to text and back gives the handle. */
  lemma FromStrToString<T>(g: GlobalId<T>, typeName: string)
    requires ':' !in typeName
    ensures FromStr<T>(GlobalIdToString(g, typeName)) == Ok(g)
  {
    RoundTrip(typeName, ToUuid(g));
  }

  /**
   * Whatever the type name, even one with a `:`, parsing an encoded ID never
   * yields another UUID than the one encoded: it fails or gives that one.
   */
  lemma FromStrNeverSwapsUuid<T>(typeName: string, id: Uuid)
    ensures FromStr<T>(ToGlobalId(typeName, id)).Ok? ==> FromStr<T>(ToGlobalId(typeName, id)) == Ok(FromUuid(id))
  {
    if ':' !in typeName {
      RoundTrip(typeName, id);
    } else {
      DecodeColonName(typeName, id);
      ParseAfterSeparator(SplitOnce(typeName, ':').value.1, id);
    }
  }

  /**
   * Text ending in `:` and a formatted UUID parses, if at all, only in the URN
   * form, whose hyphenated part is that formatted UUID.
   */
  lemma ParseAfterSeparator(after: string, id: Uuid)
    ensures Parse(after + ":" + Format(id)) in {None, Some(id)}
  {
    var f := Format(id);
    var rest := after + ":" + f;
    if Parse(rest).Some? {
      assert |rest| == 45 && rest[..9] == "urn:uuid:";
      assert rest[9..] == f;
      ParseFormat(id);
    }
  }

  /** async-graphql's input values, as far as a scalar sees them. */
  datatype Value =
    | Null
    | Number(number: int)
    | String(text: string)
    | Boolean(flag: bool)
    | Binary(octets: seq<byte>)
    | Enum(name: string)
    | List(items: seq<Value>)
    | Object(fields: seq<(string, Value)>)

  /** `InputValueError`: a custom message (built from an `Error`) or a wrong value kind. */
  datatype InputValueError = Custom(cause: Error) | ExpectedType(actual: Value)

  /** `ScalarType::parse` for `GlobalId<T>`. */
  function ParseValue<T>(value: Value): (r: Result<GlobalId<T>, InputValueError>)
    ensures r == Err(ExpectedType(value)) <==> !value.String?
    ensures value.String? ==> (r.Ok? <==> FromGlobalId(value.text).Ok?)
    ensures r.Ok? ==> FromGlobalId(value.text).Ok? && ToUuid(r.value) == FromGlobalId(value.text).value.1
    ensures value.String? && r.Err? ==> r.error == Custom(FromGlobalId(value.text).error)
  {
    match value
    case String(s) =>
      (match FromStr<T>(s)
       case Ok(g) => Ok(g)
       case Err(e) => Err(Custom(e)))
    case _ => Err(ExpectedType(value))
  }

  /** `ScalarType::to_value` for `GlobalId<T>`. */
  function ToValue<T>(g: GlobalId<T>, typeName: string): Value {
    String(GlobalIdToString(g, typeName))
  }

  /** A handle written out as a scalar value parses back to itself. */
  lemma ParseToValue<T>(g: GlobalId<T>, typeName: string)
    requires ':' !in typeName
    ensures ParseValue<T>(ToValue(g, typeName)) == Ok(g)
  {
    FromStrToString(g, typeName);
  }

  /**
   * `NodeInterface::fetch_nodes`: one `fetch_node` per ID, each failure
   * turned into `None`, results in the order of the IDs.
   */
  function FetchNodes<C, N>(fetchNode: (C, string) -> Result<N, Error>, ctx: C, ids: seq<string>): (r: seq<Option<N>>)
    ensures |r| == |ids|
    ensures forall i :: 0 <= i < |ids| ==>
              (r[i].Some? <==> fetchNode(ctx, ids[i]).Ok?) &&
              (r[i].Some? ==> r[i].value == fetchNode(ctx, ids[i]).value)
  {
    if ids == [] then []
    else [fetchNode(ctx, ids[0]).ToOption()] + FetchNodes(fetchNode, ctx, ids[1..])
  }

  /** A batch is the concatenation of the batches of its parts. */
  lemma FetchNodesAppend<C, N>(fetchNode: (C, string) -> Result<N, Error>, ctx: C, ids: seq<string>, more: seq<string>)
    ensures FetchNodes(fetchNode, ctx, ids + more) == FetchNodes(fetchNode, ctx, ids) + FetchNodes(fetchNode, ctx, more)
  {
    var r, a, b := FetchNodes(fetchNode, ctx, ids + more), FetchNodes(fetchNode, ctx, ids), FetchNodes(fetchNode, ctx, more);
    forall i | 0 <= i < |r|
      ensures r[i] == (a + b)[i]
    {
      if i < |ids| {
        assert (ids + more)[i] == ids[i];
      } else {
        assert (ids + more)[i] == more[i - |ids|];
      }
    }
  }
}

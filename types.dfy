/**
 * The wire vocabulary of the synchronisation protocol: stacks, blocks, size
 * reports, request bodies and responses, the discriminant guards that
 * recognise them by their `type` tag, and the formatters used for logging.
 *
 * Binary fields travel base64-encoded on the wire; the model carries them
 * decoded, as byte sequences.
 */
module Types {
  import opened Wrappers

  newtype byte = b: int | 0 <= b < 256

  type Bytes = seq<byte>

  /** Opaque public identifier of a stack, assigned at creation. */
  type Uuid = string

  /** Seconds since the epoch, as stored by the database; opaque to the model. */
  type Timestamp = int

  /**
   * A stack as seen on the wire: the projection of one version row.  A
   * client cursor may lack a hash (a replay from `{version: 0, height: 0}`),
   * hence the optional hash.
   */
  datatype Stack<H> = Stack(uuid: Uuid, created: Timestamp, updated: Timestamp,
                            version: int, height: int, hash: Option<H>)

  datatype Block<H> = Block(created: Timestamp, index: int, data: Bytes, hash: H)

  /** One row of a size report: per version (no uuid filter) or per block (one stack). */
  datatype SizeEntry<H> =
    | SizeVersion(uuid: Uuid, created: Timestamp, updated: Timestamp, version: int,
                  height: int, hash: H, size: nat)
    | SizeBlock(version: int, created: Timestamp, index: int, hash: H, size: nat)

  function SizeType<H>(e: SizeEntry<H>): string
  {
    match e
    case SizeVersion(_, _, _, _, _, _, _) => "size.version"
    case SizeBlock(_, _, _, _, _) => "size.block"
  }

  /** A report is a version report when its first entry is tagged so; an empty one is neither. */
  predicate IsSizeVersion<H>(obj: seq<SizeEntry<H>>)
  {
    if |obj| > 0 then SizeType(obj[0]) == "size.version" else false
  }

  predicate IsSizeBlock<H>(obj: seq<SizeEntry<H>>)
  {
    if |obj| > 0 then SizeType(obj[0]) == "size.block" else false
  }

  /** Both report guards are false on an empty report and otherwise look at the first entry's kind only. */
  lemma SizeGuards<H>(obj: seq<SizeEntry<H>>)
    ensures IsSizeVersion(obj) <==> |obj| > 0 && obj[0].SizeVersion?
    ensures IsSizeBlock(obj) <==> |obj| > 0 && obj[0].SizeBlock?
    ensures !(IsSizeVersion(obj) && IsSizeBlock(obj))
  {
  }

  /**
   * Errors raised while a request is handled.  The dispatcher turns each into
   * a `response.error` carrying `String(err)`.
   */
  datatype Error =
    | StackNotFound
    | BlockNotFound
    | UniqueViolation(columns: string)
    | NotNullViolation(column: string)
    | TypeError(detail: string)

  function Message(e: Error): string
  {
    match e
    case StackNotFound => "Error: Stack not found"
    case BlockNotFound => "Error: Block not found"
    case UniqueViolation(columns) => "SqliteError: UNIQUE constraint failed: " + columns
    case NotNullViolation(column) => "SqliteError: NOT NULL constraint failed: " + column
    case TypeError(detail) => "TypeError: " + detail
  }

  /**
   * An incoming request body: a JSON object whose `type` field selects the
   * request kind.  Every other field may be missing.  `block` is the base64
   * payload of block and version requests; `index` is `block.index` of a read
   * request.
   */
  datatype Body<H> = Body(typ: string, stack: Option<Stack<H>>, info: Option<Bytes>,
                          block: Option<Bytes>, index: Option<int>)

  const RequestCreateTag := "request.create"
  const RequestBlockTag := "request.block"
  const RequestVersionTag := "request.version"
  const RequestSyncTag := "request.sync"
  const RequestSizeTag := "request.size"
  const RequestReadTag := "request.read"
  const RequestVacuumTag := "request.vacuum"

  predicate IsRequestCreate<H>(obj: Body<H>) { obj.typ == RequestCreateTag }
  predicate IsRequestBlock<H>(obj: Body<H>) { obj.typ == RequestBlockTag }
  predicate IsRequestVersion<H>(obj: Body<H>) { obj.typ == RequestVersionTag }
  predicate IsRequestSync<H>(obj: Body<H>) { obj.typ == RequestSyncTag }
  predicate IsRequestSize<H>(obj: Body<H>) { obj.typ == RequestSizeTag }
  predicate IsRequestRead<H>(obj: Body<H>) { obj.typ == RequestReadTag }
  predicate IsRequestVacuum<H>(obj: Body<H>) { obj.typ == RequestVacuumTag }

  predicate IsRequest<H>(obj: Body<H>)
  {
    IsRequestCreate(obj) || IsRequestBlock(obj) || IsRequestVersion(obj) ||
    IsRequestSync(obj) || IsRequestSize(obj) || IsRequestRead(obj) || IsRequestVacuum(obj)
  }

  const RequestTags: seq<string> := [RequestCreateTag, RequestBlockTag, RequestVersionTag,
    RequestSyncTag, RequestSizeTag, RequestReadTag, RequestVacuumTag]

  /** A body is a request exactly when its tag is one of the seven, and then exactly one guard holds. */
  lemma RequestGuards<H>(obj: Body<H>)
    ensures IsRequest(obj) <==> obj.typ in RequestTags
    ensures IsRequestCreate(obj) ==>
              !IsRequestBlock(obj) && !IsRequestVersion(obj) && !IsRequestSync(obj) &&
              !IsRequestSize(obj) && !IsRequestRead(obj) && !IsRequestVacuum(obj)
    ensures IsRequestBlock(obj) ==>
              !IsRequestVersion(obj) && !IsRequestSync(obj) &&
              !IsRequestSize(obj) && !IsRequestRead(obj) && !IsRequestVacuum(obj)
    ensures IsRequestVersion(obj) ==>
              !IsRequestSync(obj) && !IsRequestSize(obj) && !IsRequestRead(obj) && !IsRequestVacuum(obj)
    ensures IsRequestSync(obj) ==> !IsRequestSize(obj) && !IsRequestRead(obj) && !IsRequestVacuum(obj)
    ensures IsRequestSize(obj) ==> !IsRequestRead(obj) && !IsRequestVacuum(obj)
    ensures IsRequestRead(obj) ==> !IsRequestVacuum(obj)
  {
  }

  datatype Response<H> =
    | CreateResponse(stack: Stack<H>)
    | BlockResponse(stack: Stack<H>, block: Block<H>)
    | VersionResponse(stack: Stack<H>, info: Bytes, block: Block<H>)
    | SyncResponse(stack: Stack<H>)
    | SizeResponse(size: seq<SizeEntry<H>>)
    | VacuumResponse
    | ErrorResponse(error: string)

  /** The `type` field each response carries on the wire. */
  function Tag<H>(r: Response<H>): string
  {
    match r
    case CreateResponse(_) => "response.create"
    case BlockResponse(_, _) => "response.block"
    case VersionResponse(_, _, _) => "response.version"
    case SyncResponse(_) => "response.sync"
    case SizeResponse(_) => "response.size"
    case VacuumResponse => "response.vacuum"
    case ErrorResponse(_) => "response.error"
  }

  predicate IsResponseCreate<H>(obj: Response<H>) { Tag(obj) == "response.create" }
  predicate IsResponseBlock<H>(obj: Response<H>) { Tag(obj) == "response.block" }
  predicate IsResponseVersion<H>(obj: Response<H>) { Tag(obj) == "response.version" }
  predicate IsResponseSync<H>(obj: Response<H>) { Tag(obj) == "response.sync" }
  predicate IsResponseSize<H>(obj: Response<H>) { Tag(obj) == "response.size" }
  predicate IsResponseVacuum<H>(obj: Response<H>) { Tag(obj) == "response.vacuum" }
  predicate IsResponseError<H>(obj: Response<H>) { Tag(obj) == "response.error" }

  predicate IsResponse<H>(obj: Response<H>)
  {
    IsResponseCreate(obj) || IsResponseBlock(obj) || IsResponseVersion(obj) ||
    IsResponseSync(obj) || IsResponseSize(obj) || IsResponseVacuum(obj) || IsResponseError(obj)
  }

  /** The seven tags are distinct, so each response guard recognises exactly its own variant. */
  lemma ResponseGuards<H>(obj: Response<H>)
    ensures IsResponse(obj)
    ensures IsResponseCreate(obj) <==> obj.CreateResponse?
    ensures IsResponseBlock(obj) <==> obj.BlockResponse?
    ensures IsResponseVersion(obj) <==> obj.VersionResponse?
    ensures IsResponseSync(obj) <==> obj.SyncResponse?
    ensures IsResponseSize(obj) <==> obj.SizeResponse?
    ensures IsResponseVacuum(obj) <==> obj.VacuumResponse?
    ensures IsResponseError(obj) <==> obj.ErrorResponse?
  {
  }

  // ---------------------------------------------------------------------
  // Formatters (used for log lines)
  // ---------------------------------------------------------------------

  function DigitChar(d: nat): char
    requires d < 10
  {
    (48 + d) as char
  }

  function NatToString(n: nat): (s: string)
    ensures |s| >= 1
    ensures forall k :: 0 <= k < |s| ==> '0' <= s[k] <= '9'
  {
    if n < 10 then [DigitChar(n)] else NatToString(n / 10) + [DigitChar(n % 10)]
  }

  /** Template-literal rendering of a number. */
  function IntToString(n: int): (s: string)
    ensures |s| >= 1
  {
    if n < 0 then "-" + NatToString(-n) else NatToString(n)
  }

  /** At most four leading characters, "...", at most four trailing characters. */
  function FormatString(s: string): (r: string)
    ensures |r| == 2 * Min(4, |s|) + 3
    ensures r[..Min(4, |s|)] == s[..Min(4, |s|)]
    ensures r[Min(4, |s|)..Min(4, |s|) + 3] == "..."
    ensures r[Min(4, |s|) + 3..] == s[|s| - Min(4, |s|)..]
  {
    s[..Min(4, |s|)] + "..." + s[Max(|s| - 4, 0)..]
  }

  /** `props.filter((x) => x !== '')` */
  function RemoveEmpty(xs: seq<string>): (r: seq<string>)
    ensures forall k :: 0 <= k < |r| ==> r[k] != ""
    ensures |r| <= |xs|
  {
    if xs == [] then []
    else if xs[0] == "" then RemoveEmpty(xs[1..])
    else [xs[0]] + RemoveEmpty(xs[1..])
  }

  /** `xs.join(sep)` */
  function Join(xs: seq<string>, sep: string): string
  {
    if xs == [] then ""
    else if |xs| == 1 then xs[0]
    else xs[0] + sep + Join(xs[1..], sep)
  }

  function FormatStack(stack: Stack<string>): string
  {
    var props := RemoveEmpty([
      "uuid=" + FormatString(stack.uuid),
      "version=" + IntToString(stack.version),
      "height=" + IntToString(stack.height),
      if stack.hash.Some? then "hash=" + FormatString(stack.hash.value) else ""]);
    "{" + Join(props, ",") + "}"
  }

  lemma {:induction false} RemoveEmptyKeeps(xs: seq<string>)
    requires forall k :: 0 <= k < |xs| ==> xs[k] != ""
    ensures RemoveEmpty(xs) == xs
  {
    if xs != [] {
      RemoveEmptyKeeps(xs[1..]);
    }
  }

  /** Filtering a list whose only possibly empty item is the last one. */
  lemma RemoveEmptyLastOptional(a: string, b: string, c: string, d: string)
    requires a != "" && b != "" && c != ""
    ensures RemoveEmpty([a, b, c, d]) == [a, b, c] + (if d == "" then [] else [d])
  {
    var xs := [a, b, c, d];
    assert xs[1..] == [b, c, d] && [b, c, d][1..] == [c, d] && [c, d][1..] == [d] && [d][1..] == [];
    var tail := RemoveEmpty([d]);
    assert RemoveEmpty([c, d]) == [c] + tail;
    assert RemoveEmpty([b, c, d]) == [b] + ([c] + tail);
    assert RemoveEmpty(xs) == [a] + ([b] + ([c] + tail));
  }

  /**
   * formatStack comma-joins uuid, version, height and hash inside braces, and
   * drops the hash field altogether when the stack carries no hash.
   */
  lemma FormatStackLayout(stack: Stack<string>)
    ensures FormatStack(stack) == "{" + Join(
      ["uuid=" + FormatString(stack.uuid),
       "version=" + IntToString(stack.version),
       "height=" + IntToString(stack.height)] +
      (if stack.hash.Some? then ["hash=" + FormatString(stack.hash.value)] else []), ",") + "}"
  {
    var u := "uuid=" + FormatString(stack.uuid);
    var v := "version=" + IntToString(stack.version);
    var h := "height=" + IntToString(stack.height);
    var x := if stack.hash.Some? then "hash=" + FormatString(stack.hash.value) else "";
    assert |u| > 0 && |v| > 0 && |h| > 0;
    assert stack.hash.Some? ==> |x| > 0;
    RemoveEmptyLastOptional(u, v, h, x);
  }

  /** `size.map((x) => x.size).reduce((p, c) => p + c)` for a non-empty report. */
  function TotalSize<H>(size: seq<SizeEntry<H>>): nat
  {
    if size == [] then 0 else size[0].size + TotalSize(size[1..])
  }

  function FormatSize<H>(size: seq<SizeEntry<H>>): string
  {
    var props :=
      if IsSizeVersion(size) then
        RemoveEmpty(["count=" + IntToString(|size|), "total=" + IntToString(TotalSize(size))])
      else if IsSizeBlock(size) then
        RemoveEmpty(["count=" + IntToString(|size|), "total=" + IntToString(TotalSize(size))])
      else [];
    "{" + Join(props, ",") + "}"
  }

  /**
   * An empty report formats as "{}"; any other report (whatever the tag of
   * its first entry) as its entry count and the sum of its sizes.
   */
  lemma FormatSizeLayout<H>(size: seq<SizeEntry<H>>)
    ensures size == [] ==> FormatSize(size) == "{}"
    ensures size != [] ==>
              FormatSize(size) == "{" + Join(["count=" + IntToString(|size|), "total=" + IntToString(TotalSize(size))], ",") + "}"
  {
    if size != [] {
      var c := "count=" + IntToString(|size|);
      var t := "total=" + IntToString(TotalSize(size));
      assert |c| > 0 && |t| > 0;
      RemoveEmptyKeeps([c, t]);
      assert IsSizeVersion(size) || IsSizeBlock(size) by {
        match size[0]
        case SizeVersion(_, _, _, _, _, _, _) =>
        case SizeBlock(_, _, _, _, _) =>
      }
    }
  }
}

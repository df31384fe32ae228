/**
 * The request handler, `Api`: it checks a permission, calls the store and
 * answers every block, version and sync request through the three-way
 * reconciliation `handleSync`.  Anything raised on the way becomes a
 * `response.error` carrying the error's text; `handleRequest` itself never
 * raises.
 *
 * The current server (`src/common/server/api.ts`) and the legacy one
 * (`src/server/api.ts`) share this class.  They differ in the hash scheme
 * (`scheme`), in how a block payload is decoded (`Payload`) and in what a
 * missing stack raises (`variant`).
 */
module Api {
  import opened Wrappers
  import opened Types
  import opened HashChain
  import opened Sql
  import opened Store

  datatype Variant = Current | Legacy

  /**
   * The permission hooks a deployment plugs in.  `read` receives the uuid of
   * the stack concerned, if the request names one.
   */
  datatype Auth = Auth(create: bool, read: Option<Uuid> -> bool, block: Uuid -> bool,
                       version: Uuid -> bool, vacuum: bool)

  ghost predicate GrantsAll(auth: Auth)
  {
    auth.create && auth.vacuum &&
    (forall u :: auth.read(u)) && (forall u :: auth.block(u)) && (forall u :: auth.version(u))
  }

  /** AUTH_NONE, the default policy: every permission is granted. */
  function AuthNone(): (auth: Auth)
    ensures GrantsAll(auth)
  {
    Auth(true, (u: Option<Uuid>) => true, (u: Uuid) => true, (u: Uuid) => true, true)
  }

  const NotHandled := "request not handled"

  /** What reading a property of `undefined` raises. */
  function Undefined(property: string): Error
  {
    TypeError("Cannot read properties of undefined (reading '" + property + "')")
  }

  /**
   * What reading a missing stack raises: the current store says "Stack not
   * found"; the legacy store hands back `undefined`, whose property
   * `property` the handler then fails to read.
   */
  function MissingStack(variant: Variant, property: string): Error
  {
    match variant
    case Current => StackNotFound
    case Legacy => Undefined(property)
  }

  /**
   * What a version write on a missing stack raises: the current store fails
   * to re-encode the hash of the row it did not find; the legacy store hands
   * back `undefined`, whose `uuid` the handler's log line then fails to read.
   */
  function MissingWritten(variant: Variant): Error
  {
    match variant
    case Current => TypeError(UndefinedHash)
    case Legacy => Undefined("uuid")
  }

  /** No raised error has the text of an unhandled request. */
  lemma NoErrorNotHandled()
    ensures forall e: Error :: Message(e) != NotHandled
  {
    forall e: Error ensures Message(e) != NotHandled {
      MessageNotHandled(e);
    }
  }

  /** Each error text starts with its kind: "Error", "SqliteError" or "TypeError". */
  lemma MessageNotHandled(e: Error)
    ensures Message(e) != NotHandled
  {
    assert NotHandled[0] == 'r';
    match e
    case StackNotFound =>
    case BlockNotFound =>
    case UniqueViolation(_) => assert Message(e)[0] == 'S';
    case NotNullViolation(column) =>
      var prefix := "SqliteError: NOT NULL constraint failed: ";
      assert Message(e) == prefix + column;
      assert (prefix + column)[0] == prefix[0] == 'S';
    case TypeError(_) => assert Message(e)[0] == 'T';
  }

  /**
   * An outcome as the client sees it: a raised error becomes `response.error`
   * carrying its text, and that answer is never the refusal of an unhandled
   * request.
   */
  function Answer<H>(r: Result<Response<H>, Error>): (res: Response<H>)
    ensures r.Success? ==> res == r.value
    ensures r.Failure? ==> res == ErrorResponse(Message(r.error))
    ensures r.Failure? ==> res.ErrorResponse? && res.error != NotHandled
  {
    match r
    case Success(x) => x
    case Failure(e) => MessageNotHandled(e); ErrorResponse(Message(e))
  }

  // ---------------------------------------------------------------------
  // The hash chain the handler maintains

  function Datas<H>(blocks: seq<BlockRow<H>>): (r: seq<Bytes>)
    ensures |r| == |blocks| && forall k :: 0 <= k < |blocks| ==> r[k] == blocks[k].data
  {
    seq(|blocks|, k requires 0 <= k < |blocks| => blocks[k].data)
  }

  /** Every block row carries the digest of its own data. */
  ghost predicate BlocksHashed<H>(s: Scheme<H>, v: VersionRow<H>)
  {
    forall k :: 0 <= k < |v.blocks| ==> v.blocks[k].hash == s.leaf(v.blocks[k].data)
  }

  /** The version hash is the chain over its blocks' data, in index order. */
  ghost predicate Sealed<H>(s: Scheme<H>, v: VersionRow<H>)
  {
    |v.blocks| > 0 && v.hash == ChainHash(s, Datas(v.blocks))
  }

  /**
   * A stack's latest version is sealed by its chain.  (A superseded version
   * need not be: a block written against it is chained from the latest
   * version's hash.)
   */
  ghost predicate StackChained<H>(s: Scheme<H>, st: StackRow<H>)
  {
    (|st.versions| > 0 ==> Sealed(s, st.versions[|st.versions| - 1])) &&
    forall j :: 0 <= j < |st.versions| ==> BlocksHashed(s, st.versions[j])
  }

  ghost predicate ChainIntact<H>(s: Scheme<H>, t: Tables<H>)
  {
    forall i :: 0 <= i < |t| ==> StackChained(s, t[i])
  }

  /** A created stack is sealed by the digest of its single block. */
  lemma NewStackChained<H>(s: Scheme<H>, t: Tables<H>, uuid: Uuid, info: Bytes, data: Bytes, now: Timestamp)
    requires ChainIntact(s, t)
    requires NewStack(t, uuid, info, data, s.leaf(data), now).Success?
    ensures ChainIntact(s, NewStack(t, uuid, info, data, s.leaf(data), now).value)
  {
    var t' := NewStack(t, uuid, info, data, s.leaf(data), now).value;
    var v := t'[|t|].versions[0];
    assert Datas(v.blocks) == [data];
    assert StackChained(s, t'[|t|]);
    forall i | 0 <= i < |t'| ensures StackChained(s, t'[i]) {
      if i < |t| { assert t'[i] == t[i]; }
    }
  }

  /** Replacing one stack row by a chained one keeps the chain intact. */
  lemma ChainIntactUpdate<H>(s: Scheme<H>, t: Tables<H>, i: nat, st: StackRow<H>)
    requires ChainIntact(s, t) && i < |t| && StackChained(s, st)
    ensures ChainIntact(s, t[i := st])
  {
    var t' := t[i := st];
    forall k | 0 <= k < |t'| ensures StackChained(s, t'[k]) {
      if k != i { assert t'[k] == t[k]; }
    }
  }

  /**
   * Replacing one version row by a hashed one keeps a stack chained,
   * provided the row is sealed when it is the latest.
   */
  lemma StackChainedUpdate<H>(s: Scheme<H>, st: StackRow<H>, j: nat, v: VersionRow<H>)
    requires StackChained(s, st) && j < |st.versions| && BlocksHashed(s, v)
    requires j == |st.versions| - 1 ==> Sealed(s, v)
    ensures StackChained(s, st.(versions := st.versions[j := v]))
  {
    var vs' := st.versions[j := v];
    forall k | 0 <= k < |vs'| ensures BlocksHashed(s, vs'[k]) {
      if k != j { assert vs'[k] == st.versions[k]; }
    }
  }

  /**
   * One more block, hashed by its data, on a version row: the row stays
   * hashed, and a sealed row chained from its own hash stays sealed.
   */
  lemma AppendRowChained<H>(s: Scheme<H>, v: VersionRow<H>, data: Bytes, vh: H, now: Timestamp)
    requires BlocksHashed(s, v)
    ensures var v' := v.(updated := now, height := v.height + 1, hash := vh,
                         blocks := v.blocks + [BlockRow(now, v.height, data, s.leaf(data))]);
            BlocksHashed(s, v') &&
            (Sealed(s, v) && vh == s.chain(v.hash, s.leaf(data)) ==> Sealed(s, v'))
  {
    var b := BlockRow(now, v.height, data, s.leaf(data));
    var v' := v.(updated := now, height := v.height + 1, hash := vh, blocks := v.blocks + [b]);
    forall k | 0 <= k < |v'.blocks| ensures v'.blocks[k].hash == s.leaf(v'.blocks[k].data) {
      if k < |v.blocks| { assert v'.blocks[k] == v.blocks[k]; }
    }
    if Sealed(s, v) && vh == s.chain(v.hash, s.leaf(data)) {
      assert Datas(v.blocks + [b]) == Datas(v.blocks) + [data];
      ChainExtend(s, Datas(v.blocks), data);
    }
  }

  /**
   * A block write whose version hash is chained from the latest version's
   * hash keeps every latest version sealed.
   */
  lemma AppendBlockChained<H>(s: Scheme<H>, t: Tables<H>, uuid: Uuid, version: int, height: int,
                              hash: H, data: Bytes, now: Timestamp)
    requires Wellformed(t) && ChainIntact(s, t) && Latest(t, uuid).Some?
    ensures ChainIntact(s, AppendBlock(t, uuid, version, height, hash, data, s.leaf(data),
                                       s.chain(Latest(t, uuid).value.hash, s.leaf(data)), now))
  {
    var vh := s.chain(Latest(t, uuid).value.hash, s.leaf(data));
    match Claimed(t, uuid, version, height, hash)
    case None =>
    case Some((i, j)) =>
      var v := t[i].versions[j];
      var v' := Grown(v, data, s.leaf(data), vh, now);
      FindStackUnique(t, i);
      LatestAt(t, uuid);
      assert StackChained(s, t[i]);
      AppendRowChained(s, v, data, vh, now);
      if j == |t[i].versions| - 1 {
        assert Sealed(s, v) && v.hash == Latest(t, uuid).value.hash;
      }
      StackChainedUpdate(s, t[i], j, v');
      ChainIntactUpdate(s, t, i, t[i].(versions := t[i].versions[j := v']));
  }

  /** A new version, sealed by the digest of its block 0, keeps the chain intact. */
  lemma OpenVersionChained<H>(s: Scheme<H>, t: Tables<H>, uuid: Uuid, version: int, hash: H,
                                  info: Bytes, data: Bytes, now: Timestamp)
    requires ChainIntact(s, t)
    requires OpenVersion(t, uuid, version, hash, info, data, s.leaf(data), now).Success?
    ensures ChainIntact(s, OpenVersion(t, uuid, version, hash, info, data, s.leaf(data), now).value)
  {
    var t' := OpenVersion(t, uuid, version, hash, info, data, s.leaf(data), now).value;
    match ClaimedVersion(t, uuid, version, hash)
    case None =>
    case Some((i, _)) =>
      var b := BlockRow(now, 0, data, s.leaf(data));
      var row := VersionRow(now, now, version + 1, info, 1, s.leaf(data), [b]);
      var vs' := t[i].versions + [row];
      assert t' == t[i := t[i].(versions := vs')];
      assert Datas(row.blocks) == [data];
      assert Sealed(s, row);
      assert StackChained(s, t[i]);
      assert StackChained(s, t'[i]) by {
        forall k | 0 <= k < |vs'| ensures BlocksHashed(s, vs'[k]) {
          if k < |t[i].versions| { assert vs'[k] == t[i].versions[k]; }
        }
      }
      forall k | 0 <= k < |t'| ensures StackChained(s, t'[k]) {
        if k != i { assert t'[k] == t[k]; }
      }
  }

  /** Vacuum keeps exactly the latest versions, so the chain stays intact. */
  lemma KeepLatestChained<H>(s: Scheme<H>, t: Tables<H>)
    requires Wellformed(t) && ChainIntact(s, t)
    ensures ChainIntact(s, KeepLatest(t))
  {
    forall i | 0 <= i < |t| ensures StackChained(s, KeepLatest(t)[i]) {
      KeepLatestStack(t, i);
      assert StackChained(s, t[i]);
    }
  }

  /**
   * A block claimed against the latest version is chained from the claimed
   * hash itself: the claim and the server's latest hash coincide.
   */
  lemma LatestClaimChain<H>(s: Scheme<H>, t: Tables<H>, uuid: Uuid, version: int, height: int,
                                hash: H, data: Bytes)
    requires Wellformed(t) && Latest(t, uuid).Some?
    requires Claimed(t, uuid, version, height, hash).Some?
    ensures version == Latest(t, uuid).value.version <==>
              Latest(t, uuid) == Some(t[Claimed(t, uuid, version, height, hash).value.0].versions[
                                        Claimed(t, uuid, version, height, hash).value.1])
    ensures version == Latest(t, uuid).value.version ==>
              s.chain(Latest(t, uuid).value.hash, s.leaf(data)) == s.chain(hash, s.leaf(data))
  {
    var (i, j) := Claimed(t, uuid, version, height, hash).value;
    FindStackUnique(t, i);
    LatestAt(t, uuid);
    var vs := t[i].versions;
    assert StackWellformed(t[i]);
    assert vs[j].version == vs[0].version + j;
    assert vs[|vs| - 1].version == vs[0].version + |vs| - 1;
  }

  /**
   * A block claimed against a superseded version is still accepted into
   * that version, whose hash is then chained from the latest version's hash
   * rather than its own; the latest version does not change.
   */
  lemma SupersededBlockWrite<H>(s: Scheme<H>, t: Tables<H>, uuid: Uuid, version: int, height: int,
                                    hash: H, data: Bytes, now: Timestamp)
    requires Wellformed(t) && Latest(t, uuid).Some?
    requires Claimed(t, uuid, version, height, hash).Some?
    requires version < Latest(t, uuid).value.version
    ensures var latest := Latest(t, uuid).value;
            var c := Claimed(t, uuid, version, height, hash).value;
            var t' := AppendBlock(t, uuid, version, height, hash, data, s.leaf(data),
                                  s.chain(latest.hash, s.leaf(data)), now);
            Latest(t', uuid) == Latest(t, uuid) &&
            t'[c.0].versions[c.1].version == version &&
            t'[c.0].versions[c.1].height == height + 1 &&
            t'[c.0].versions[c.1].hash == s.chain(latest.hash, s.leaf(data)) &&
            t'[c.0].versions[c.1].blocks[height].data == data
  {
    var (i, j) := Claimed(t, uuid, version, height, hash).value;
    FindStackUnique(t, i);
    LatestAt(t, uuid);
    var vs := t[i].versions;
    assert StackWellformed(t[i]);
    assert vs[j].version == vs[0].version + j;
    assert vs[|vs| - 1].version == vs[0].version + |vs| - 1;
    assert BlocksContiguous(vs[j]);
    var latest := Latest(t, uuid).value;
    var v := vs[j];
    var v' := Grown(v, data, s.leaf(data), s.chain(latest.hash, s.leaf(data)), now);
    WithVersionLatest(t, i, j, v', uuid);
  }

  /** A block write leaves the set of stacks alone. */
  lemma AppendBlockLatest<H>(t: Tables<H>, uuid: Uuid, version: int, height: int, hash: H,
                                 data: Bytes, blockHash: H, versionHash: H, now: Timestamp, other: Uuid)
    requires Wellformed(t)
    ensures var t' := AppendBlock(t, uuid, version, height, hash, data, blockHash, versionHash, now);
            Wellformed(t') && (Latest(t', other).Some? <==> Latest(t, other).Some?)
  {
    var t' := AppendBlock(t, uuid, version, height, hash, data, blockHash, versionHash, now);
    AppendBlockWellformed(t, uuid, version, height, hash, data, blockHash, versionHash, now);
    StackSelectIsLatest(t, other);
    StackSelectIsLatest(t', other);
    assert |t'| == |t| && forall k :: 0 <= k < |t| ==> t'[k].uuid == t[k].uuid;
  }

  // ---------------------------------------------------------------------
  // A worked example

  /**
   * The store after three requests on an empty database: a stack `uuid`
   * created with block `a`, grown by block `b`, then moved to a second
   * version by block `c`, each write claiming the stack's latest state.
   */
  function Example<H(==)>(s: Scheme<H>, uuid: Uuid, info1: Bytes, info2: Bytes,
                          a: Bytes, b: Bytes, c: Bytes, now: Timestamp): Tables<H>
  {
    var t1 := NewStack([], uuid, info1, a, s.leaf(a), now);
    var t2 := AppendBlock(t1.value, uuid, 1, 1, s.leaf(a), b, s.leaf(b), s.chain(s.leaf(a), s.leaf(b)), now);
    var t3 := OpenVersion(t2, uuid, 1, s.chain(s.leaf(a), s.leaf(b)), info2, c, s.leaf(c), now);
    if t3.Success? then t3.value else t2
  }

  /**
   * Version 1 holds blocks a and b at indices 0 and 1 and is sealed by
   * chain(leaf(a), leaf(b)); version 2 holds block c and is sealed by
   * leaf(c).  The state keeps both store invariants.
   */
  lemma ExampleState<H>(s: Scheme<H>, uuid: Uuid, info1: Bytes, info2: Bytes,
                            a: Bytes, b: Bytes, c: Bytes, now: Timestamp)
    ensures Example(s, uuid, info1, info2, a, b, c, now) ==
              [StackRow(uuid, [VersionRow(now, now, 1, info1, 2, s.chain(s.leaf(a), s.leaf(b)),
                                          [BlockRow(now, 0, a, s.leaf(a)), BlockRow(now, 1, b, s.leaf(b))]),
                               VersionRow(now, now, 2, info2, 1, s.leaf(c), [BlockRow(now, 0, c, s.leaf(c))])])]
    ensures Wellformed(Example(s, uuid, info1, info2, a, b, c, now))
    ensures ChainIntact(s, Example(s, uuid, info1, info2, a, b, c, now))
  {
    var ba := BlockRow(now, 0, a, s.leaf(a));
    var v1 := VersionRow(now, now, 1, info1, 1, s.leaf(a), [ba]);
    var t1 := [StackRow(uuid, [v1])];
    var empty: Tables<H> := [];
    assert FindStack(empty, uuid) == None;
    assert empty + [StackRow(uuid, [v1])] == t1;
    assert NewStack([], uuid, info1, a, s.leaf(a), now) == Success(t1);
    assert FindStack(t1, uuid) == Some(0);
    assert FindVersion(t1[0].versions, 1) == Some(0);
    assert Claimed(t1, uuid, 1, 1, s.leaf(a)) == Some((0, 0));
    var h := s.chain(s.leaf(a), s.leaf(b));
    var v1' := Grown(v1, b, s.leaf(b), h, now);
    assert [ba] + [BlockRow(now, 1, b, s.leaf(b))] == [ba, BlockRow(now, 1, b, s.leaf(b))];
    assert v1' == VersionRow(now, now, 1, info1, 2, h, [ba, BlockRow(now, 1, b, s.leaf(b))]);
    var t2 := [StackRow(uuid, [v1'])];
    assert [v1][0 := v1'] == [v1'];
    assert WithVersion(t1, 0, 0, v1') == t2;
    assert AppendBlock(t1, uuid, 1, 1, s.leaf(a), b, s.leaf(b), h, now) == t2;
    assert FindStack(t2, uuid) == Some(0);
    assert FindVersion(t2[0].versions, 1) == Some(0);
    assert FindVersion(t2[0].versions, 2) == None;
    assert ClaimedVersion(t2, uuid, 1, h) == Some((0, 0));
    var v2 := VersionRow(now, now, 2, info2, 1, s.leaf(c), [BlockRow(now, 0, c, s.leaf(c))]);
    var t3 := [StackRow(uuid, [v1', v2])];
    assert VersionAt(t2, uuid, 2) == None;
    assert [v1'] + [v2] == [v1', v2];
    assert t2[0 := t2[0].(versions := t2[0].versions + [v2])] == t3;
    assert OpenVersion(t2, uuid, 1, h, info2, c, s.leaf(c), now) == Success(t3);
    assert Datas(v1'.blocks) == [a, b];
    assert Datas(v2.blocks) == [c];
    assert [a, b][..1] == [a];
    assert Sealed(s, v2);
    assert StackChained(s, t3[0]);
    assert StackWellformed(t3[0]);
    assert Example(s, uuid, info1, info2, a, b, c, now) == t3;
  }

  // ---------------------------------------------------------------------
  // The handler

  class Api<H(==)> {
    const db: Db<H>
    const variant: Variant
    const scheme: Scheme<H>
    /** The legacy server's base64 decoder, `bufferFromBase64`. */
    const decode: Bytes -> Bytes

    ghost predicate Valid()
      reads db
    {
      db.Valid() && ChainIntact(scheme, db.tables)
    }

    constructor (db: Db<H>, variant: Variant, scheme: Scheme<H>, decode: Bytes -> Bytes)
      requires db.Valid() && ChainIntact(scheme, db.tables)
      ensures this.db == db && this.variant == variant && this.scheme == scheme && this.decode == decode
      ensures Valid()
    {
      this.db := db;
      this.variant := variant;
      this.scheme := scheme;
      this.decode := decode;
    }

    /** The bytes stored for a request's block payload: taken as they come now, decoded from base64 by the legacy server. */
    function Payload(block: Bytes): (data: Bytes)
      ensures variant == Current ==> data == block
      ensures variant == Legacy ==> data == decode(block)
    {
      if variant == Current then block else decode(block)
    }

    /** `db.read(uuid)`, with what each variant raises for a missing stack when `property` is read. */
    function ReadLatest(uuid: Uuid, property: string): (r: Result<Stack<H>, Error>)
      requires db.Valid()
      reads db
      ensures r == match LatestStack(db.tables, uuid)
                   case None => Failure(MissingStack(variant, property))
                   case Some(s) => Success(s)
    {
      match variant
      case Current => db.Read(uuid)
      case Legacy =>
        match db.LegacyRead(uuid)
        case None => Failure(Undefined(property))
        case Some(s) => Success(s)
    }

    /** What the store reads back of a stack's latest version `v`: its info, and its block `index` below its height. */
    lemma LatestReads(uuid: Uuid, index: int)
      requires db.Valid() && Latest(db.tables, uuid).Some?
      ensures var v := Latest(db.tables, uuid).value;
              LatestStack(db.tables, uuid) == Some(Project(uuid, v)) &&
              v.height >= 1 &&
              db.InfoRead(uuid, v.version) == Success(v.info) &&
              db.BlockRead(uuid, v.version, 0) == Success(IntoBlock(v.blocks[0])) &&
              db.BlockRead(uuid, v.version, index) ==
                if 0 <= index < v.height then Success(IntoBlock(v.blocks[index])) else Failure(BlockNotFound)
    {
      LatestAt(db.tables, uuid);
    }

    /**
     * handleSync: compares the claimed stack with the latest version on the
     * server.  Same version and height: in step (the hash is not compared).
     * Same version only: the block at the claimed height, which exists only
     * below the server's height.  Any other version, older or newer: the
     * latest version's info and its block 0.
     */
    function HandleSync(stack: Stack<H>): (r: Result<Response<H>, Error>)
      requires db.Valid()
      reads db
      ensures Latest(db.tables, stack.uuid).None? ==> r == Failure(MissingStack(variant, "version"))
      ensures Latest(db.tables, stack.uuid).Some? ==>
                var v := Latest(db.tables, stack.uuid).value;
                var latest := Project(stack.uuid, v);
                if stack.version == v.version && stack.height == v.height then
                  r == Success(SyncResponse(latest))
                else if stack.version == v.version then
                  r == if 0 <= stack.height < v.height
                       then Success(BlockResponse(latest, IntoBlock(v.blocks[stack.height])))
                       else Failure(BlockNotFound)
                else
                  r == Success(VersionResponse(latest, v.info, IntoBlock(v.blocks[0])))
    {
      var latest := ReadLatest(stack.uuid, "version");
      if latest.Failure? then Failure(latest.error)
      else
        var stack2 := latest.value;
        LatestReads(stack.uuid, stack.height);
        if stack.version == stack2.version && stack.height == stack2.height then
          Success(SyncResponse(stack2))
        else if stack.version == stack2.version then
          var block := db.BlockRead(stack2.uuid, stack2.version, stack.height);
          if block.Failure? then Failure(block.error)
          else Success(BlockResponse(stack2, block.value))
        else
          // the latest version always has its info and its block 0
          var info := db.InfoRead(stack2.uuid, stack2.version);
          var block := db.BlockRead(stack2.uuid, stack2.version, 0);
          Success(VersionResponse(stack2, info.value, block.value))
    }

    /** The read request: the projection of the named version and its block `index`. */
    function HandleRead(uuid: Uuid, version: int, index: int): (r: Result<Response<H>, Error>)
      requires db.Valid()
      reads db
      ensures r == match VersionAt(db.tables, uuid, version)
                   case None => Failure(StackNotFound)
                   case Some((i, j)) =>
                     var v := db.tables[i].versions[j];
                     if 0 <= index < v.height
                     then Success(BlockResponse(Project(uuid, v), IntoBlock(v.blocks[index])))
                     else Failure(BlockNotFound)
    {
      match db.VersionRead(uuid, version)
      case Failure(e) => Failure(e)
      case Success(stack) =>
        match db.BlockRead(uuid, version, index)
        case Failure(e) => Failure(e)
        case Success(block) => Success(BlockResponse(stack, block))
    }

    /** The create request: a new stack sealed by the digest of its block. */
    method HandleCreate(info: Bytes, block: Bytes, uuid: Uuid, now: Timestamp) returns (r: Response<H>)
      requires Valid()
      modifies db
      ensures Valid()
      ensures var data := Payload(block);
              match NewStack(old(db.tables), uuid, info, data, scheme.leaf(data), now)
              case Failure(e) => r == ErrorResponse(Message(e)) && db.tables == old(db.tables)
              case Success(t) =>
                db.tables == t && r == CreateResponse(Stack(uuid, now, now, 1, 1, Some(scheme.leaf(data))))
    {
      var data := Payload(block);
      var hash := scheme.leaf(data);
      if NewStack(db.tables, uuid, info, data, hash, now).Success? {
        NewStackChained(scheme, db.tables, uuid, info, data, now);
      }
      var stack := db.Create(uuid, info, data, hash, now);
      r := match stack
           case Failure(e) => ErrorResponse(Message(e))
           case Success(s) => CreateResponse(s);
    }

    /**
     * The block request: the version hash is chained from the latest hash
     * read before the conditional write, and the answer is `handleSync` of
     * the latest stack the write hands back, which is always in step.  A
     * missing claimed hash, which only the legacy server passes on, is bound
     * as NULL and matches no row.
     */
    method HandleBlock(stack: Stack<H>, hash: Option<H>, block: Bytes, now: Timestamp) returns (r: Response<H>)
      requires Valid()
      modifies db
      ensures Valid()
      ensures var data := Payload(block);
              match Latest(old(db.tables), stack.uuid)
              case None =>
                r == ErrorResponse(Message(MissingStack(variant, "hash"))) && db.tables == old(db.tables)
              case Some(v) =>
                db.tables == (if hash.Some? then
                                AppendBlock(old(db.tables), stack.uuid, stack.version, stack.height, hash.value,
                                            data, scheme.leaf(data), scheme.chain(v.hash, scheme.leaf(data)), now)
                              else old(db.tables)) &&
                r.SyncResponse? && LatestStack(db.tables, stack.uuid) == Some(r.stack)
    {
      var data := Payload(block);
      var blockHash := scheme.leaf(data);
      var stack2 := ReadLatest(stack.uuid, "hash");
      if stack2.Failure? {
        return ErrorResponse(Message(stack2.error));
      }
      var versionHash := scheme.chain(stack2.value.hash.value, blockHash);
      if hash.Some? {
        AppendBlockChained(scheme, db.tables, stack.uuid, stack.version, stack.height, hash.value, data, now);
        AppendBlockLatest(db.tables, stack.uuid, stack.version, stack.height, hash.value, data, blockHash,
                          versionHash, now, stack.uuid);
      }
      var written := db.BlockWrite(stack.uuid, stack.version, stack.height, hash, data, blockHash,
                                   versionHash, now);
      r := Answer(match written
                  case Failure(e) => Failure(e)
                  case Success(s) => HandleSync(s));
    }

    /**
     * The version request: the conditional version write, answered by
     * `handleSync` of the latest stack it hands back.  A missing claimed hash
     * or info, which only the legacy server passes on, is bound as NULL.
     */
    method HandleVersion(stack: Stack<H>, hash: Option<H>, info: Option<Bytes>, block: Bytes, now: Timestamp)
      returns (r: Response<H>)
      requires Valid()
      modifies db
      ensures Valid()
      ensures var data := Payload(block);
              match OpenVersionNull(old(db.tables), stack.uuid, stack.version, hash, info, data,
                                    scheme.leaf(data), now)
              case Failure(e) => r == ErrorResponse(Message(e)) && db.tables == old(db.tables)
              case Success(t) =>
                db.tables == t &&
                r == match LatestStack(t, stack.uuid)
                     case None => ErrorResponse(Message(MissingWritten(variant)))
                     case Some(s) => SyncResponse(s)
    {
      var data := Payload(block);
      var blockHash := scheme.leaf(data);
      if hash.Some? && info.Some? &&
         OpenVersion(db.tables, stack.uuid, stack.version, hash.value, info.value, data, blockHash, now).Success? {
        OpenVersionChained(scheme, db.tables, stack.uuid, stack.version, hash.value, info.value, data, now);
      }
      var written := db.VersionWrite(stack.uuid, stack.version, hash, info, data, blockHash, now);
      if written.Failure? && LatestStack(db.tables, stack.uuid).None? {
        // the transaction committed nothing and found no stack to answer with
        return ErrorResponse(Message(MissingWritten(variant)));
      }
      r := Answer(match written
                  case Failure(e) => Failure(e)
                  case Success(s) => HandleSync(s));
    }

    /**
     * handleRequest: the first request kind whose guard holds and whose
     * permission is granted is served; an unknown kind or a refused
     * permission is "request not handled"; every raised error is answered
     * as `response.error`.  `uuid` and `now` stand for the fresh uuid and
     * the clock of the server.  The guards exclude one another, so each kind
     * is dispatched to its own branch, which answers a refused permission
     * itself.
     */
    method HandleRequest(body: Body<H>, auth: Auth, uuid: Uuid, now: Timestamp) returns (r: Response<H>)
      requires Valid()
      modifies db
      ensures Valid()
      ensures !IsRequest(body) ==> r == ErrorResponse(NotHandled) && db.tables == old(db.tables)
      ensures GrantsAll(auth) && IsRequest(body) ==> r != ErrorResponse(NotHandled)
      ensures IsRequestCreate(body) ==> CreateServed(body, auth, uuid, now, old(db.tables), r)
      ensures IsRequestBlock(body) ==> BlockServed(body, auth, now, old(db.tables), r)
      ensures IsRequestVersion(body) ==> VersionServed(body, auth, now, old(db.tables), r)
      ensures IsRequestSync(body) ==> db.tables == old(db.tables) && SyncServed(body, auth, r)
      ensures IsRequestSize(body) ==> db.tables == old(db.tables) && SizeServed(body, auth, r)
      ensures IsRequestRead(body) ==> db.tables == old(db.tables) && ReadServed(body, auth, r)
      ensures IsRequestVacuum(body) ==> VacuumServed(auth, old(db.tables), r)
    {
      RequestGuards(body);
      if IsRequestCreate(body) {
        r := ServeCreate(body, auth, uuid, now);
      } else if IsRequestBlock(body) {
        r := ServeBlock(body, auth, now);
      } else if IsRequestVersion(body) {
        r := ServeVersion(body, auth, now);
      } else if IsRequestSync(body) {
        r := ServeSync(body, auth);
      } else if IsRequestSize(body) {
        r := ServeSize(body, auth);
      } else if IsRequestRead(body) {
        r := ServeRead(body, auth);
      } else if IsRequestVacuum(body) {
        r := ServeVacuum(auth);
      } else {
        r := ErrorResponse(NotHandled);
      }
    }

    /** A create request: refused, missing a field, or the stack `uuid` created. */
    ghost predicate CreateServed(body: Body<H>, auth: Auth, uuid: Uuid, now: Timestamp, t0: Tables<H>, r: Response<H>)
      reads db
    {
      if !auth.create then r == ErrorResponse(NotHandled) && db.tables == t0
      else if body.info.None? || body.block.None? then r.ErrorResponse? && db.tables == t0
      else
        var data := Payload(body.block.value);
        match NewStack(t0, uuid, body.info.value, data, scheme.leaf(data), now)
        case Failure(e) => r == ErrorResponse(Message(e)) && db.tables == t0
        case Success(t) =>
          db.tables == t && r == CreateResponse(Stack(uuid, now, now, 1, 1, Some(scheme.leaf(data))))
    }

    /**
     * A block request: the conditional write with the version hash chained
     * from the latest hash, always answered by the latest stack in step.
     */
    ghost predicate BlockServed(body: Body<H>, auth: Auth, now: Timestamp, t0: Tables<H>, r: Response<H>)
      reads db
    {
      if body.stack.None? then r == ErrorResponse(Message(Undefined("uuid"))) && db.tables == t0
      else if !auth.block(body.stack.value.uuid) then r == ErrorResponse(NotHandled) && db.tables == t0
      else if body.block.None? || (variant == Current && body.stack.value.hash.None?) then
        r.ErrorResponse? && db.tables == t0
      else
        var s := body.stack.value;
        var data := Payload(body.block.value);
        match Latest(t0, s.uuid)
        case None => r == ErrorResponse(Message(MissingStack(variant, "hash"))) && db.tables == t0
        case Some(v) =>
          db.tables == (if s.hash.Some? then
                          AppendBlock(t0, s.uuid, s.version, s.height, s.hash.value, data,
                                      scheme.leaf(data), scheme.chain(v.hash, scheme.leaf(data)), now)
                        else t0) &&
          r.SyncResponse? && LatestStack(db.tables, s.uuid) == Some(r.stack)
    }

    /** A version request: the conditional version write, answered by the latest stack. */
    ghost predicate VersionServed(body: Body<H>, auth: Auth, now: Timestamp, t0: Tables<H>, r: Response<H>)
      reads db
    {
      if body.stack.None? then r == ErrorResponse(Message(Undefined("uuid"))) && db.tables == t0
      else if !auth.version(body.stack.value.uuid) then r == ErrorResponse(NotHandled) && db.tables == t0
      else if body.block.None? || (variant == Current && (body.stack.value.hash.None? || body.info.None?)) then
        r.ErrorResponse? && db.tables == t0
      else
        var s := body.stack.value;
        var data := Payload(body.block.value);
        match OpenVersionNull(t0, s.uuid, s.version, s.hash, body.info, data, scheme.leaf(data), now)
        case Failure(e) => r == ErrorResponse(Message(e)) && db.tables == t0
        case Success(t) =>
          db.tables == t &&
          r == match LatestStack(t, s.uuid)
               case None => ErrorResponse(Message(MissingWritten(variant)))
               case Some(latest) => SyncResponse(latest)
    }

    ghost predicate SyncServed(body: Body<H>, auth: Auth, r: Response<H>)
      requires db.Valid()
      reads db
    {
      if body.stack.None? then r == ErrorResponse(Message(Undefined("uuid")))
      else if !auth.read(Some(body.stack.value.uuid)) then r == ErrorResponse(NotHandled)
      else r == Answer(HandleSync(body.stack.value))
    }

    ghost predicate SizeServed(body: Body<H>, auth: Auth, r: Response<H>)
      reads db
    {
      var u := if body.stack.Some? then Some(body.stack.value.uuid) else None;
      if !auth.read(u) then r == ErrorResponse(NotHandled) else r == SizeResponse(db.Size(u))
    }

    ghost predicate ReadServed(body: Body<H>, auth: Auth, r: Response<H>)
      requires db.Valid()
      reads db
    {
      if body.stack.None? then r == ErrorResponse(Message(Undefined("uuid")))
      else if !auth.read(Some(body.stack.value.uuid)) then r == ErrorResponse(NotHandled)
      else if body.index.None? then r == ErrorResponse(Message(Undefined("index")))
      else r == Answer(HandleRead(body.stack.value.uuid, body.stack.value.version, body.index.value))
    }

    ghost predicate VacuumServed(auth: Auth, t0: Tables<H>, r: Response<H>)
      reads db
    {
      if !auth.vacuum then r == ErrorResponse(NotHandled) && db.tables == t0
      else r == VacuumResponse && db.tables == KeepLatest(t0)
    }

    method ServeCreate(body: Body<H>, auth: Auth, uuid: Uuid, now: Timestamp) returns (r: Response<H>)
      requires Valid()
      modifies db
      ensures Valid()
      ensures CreateServed(body, auth, uuid, now, old(db.tables), r)
      ensures GrantsAll(auth) ==> r != ErrorResponse(NotHandled)
    {
      if !auth.create {
        r := ErrorResponse(NotHandled);
      } else if body.info.None? {
        r := ErrorResponse(Message(Undefined("info")));
      } else if body.block.None? {
        r := ErrorResponse(Message(Undefined("block")));
      } else {
        r := HandleCreate(body.info.value, body.block.value, uuid, now);
      }
      NoErrorNotHandled();
    }

    method ServeBlock(body: Body<H>, auth: Auth, now: Timestamp) returns (r: Response<H>)
      requires Valid()
      modifies db
      ensures Valid()
      ensures BlockServed(body, auth, now, old(db.tables), r)
      ensures GrantsAll(auth) ==> r != ErrorResponse(NotHandled)
    {
      if body.stack.None? {
        r := ErrorResponse(Message(Undefined("uuid")));
      } else if !auth.block(body.stack.value.uuid) {
        r := ErrorResponse(NotHandled);
      } else if variant == Current && body.stack.value.hash.None? {
        r := ErrorResponse(Message(Undefined("hash")));
      } else if body.block.None? {
        r := ErrorResponse(Message(Undefined("block")));
      } else {
        var s := body.stack.value;
        r := HandleBlock(s, s.hash, body.block.value, now);
      }
      NoErrorNotHandled();
    }

    method ServeVersion(body: Body<H>, auth: Auth, now: Timestamp) returns (r: Response<H>)
      requires Valid()
      modifies db
      ensures Valid()
      ensures VersionServed(body, auth, now, old(db.tables), r)
      ensures GrantsAll(auth) ==> r != ErrorResponse(NotHandled)
    {
      if body.stack.None? {
        r := ErrorResponse(Message(Undefined("uuid")));
      } else if !auth.version(body.stack.value.uuid) {
        r := ErrorResponse(NotHandled);
      } else if variant == Current && body.stack.value.hash.None? {
        r := ErrorResponse(Message(Undefined("hash")));
      } else if variant == Current && body.info.None? {
        r := ErrorResponse(Message(Undefined("info")));
      } else if body.block.None? {
        r := ErrorResponse(Message(Undefined("block")));
      } else {
        var s := body.stack.value;
        r := HandleVersion(s, s.hash, body.info, body.block.value, now);
      }
      NoErrorNotHandled();
    }

    method ServeSync(body: Body<H>, auth: Auth) returns (r: Response<H>)
      requires Valid()
      ensures SyncServed(body, auth, r)
      ensures GrantsAll(auth) ==> r != ErrorResponse(NotHandled)
    {
      if body.stack.None? {
        r := ErrorResponse(Message(Undefined("uuid")));
      } else if !auth.read(Some(body.stack.value.uuid)) {
        r := ErrorResponse(NotHandled);
      } else {
        r := Answer(HandleSync(body.stack.value));
      }
      NoErrorNotHandled();
    }

    method ServeSize(body: Body<H>, auth: Auth) returns (r: Response<H>)
      requires Valid()
      ensures SizeServed(body, auth, r)
      ensures GrantsAll(auth) ==> r != ErrorResponse(NotHandled)
    {
      var u := if body.stack.Some? then Some(body.stack.value.uuid) else None;
      if !auth.read(u) {
        r := ErrorResponse(NotHandled);
      } else {
        r := SizeResponse(db.Size(u));
      }
    }

    method ServeRead(body: Body<H>, auth: Auth) returns (r: Response<H>)
      requires Valid()
      ensures ReadServed(body, auth, r)
      ensures GrantsAll(auth) ==> r != ErrorResponse(NotHandled)
    {
      if body.stack.None? {
        r := ErrorResponse(Message(Undefined("uuid")));
      } else if !auth.read(Some(body.stack.value.uuid)) {
        r := ErrorResponse(NotHandled);
      } else if body.index.None? {
        r := ErrorResponse(Message(Undefined("index")));
      } else {
        r := Answer(HandleRead(body.stack.value.uuid, body.stack.value.version, body.index.value));
      }
      NoErrorNotHandled();
    }

    method ServeVacuum(auth: Auth) returns (r: Response<H>)
      requires Valid()
      modifies db
      ensures Valid()
      ensures VacuumServed(auth, old(db.tables), r)
      ensures GrantsAll(auth) ==> r != ErrorResponse(NotHandled)
    {
      if !auth.vacuum {
        r := ErrorResponse(NotHandled);
      } else {
        KeepLatestChained(scheme, db.tables);
        db.Vacuum();
        r := VacuumResponse;
      }
    }
  }
  /**
   * In the worked example a sync from any version other than the latest,
   * the replay cursor {version: 0, height: 0} included, is answered with
   * version 2's info and block c: version 1 and its block b are never
   * sent.  A cursor at version 2 is in step at height 1, is sent block c
   * at height 0, and fails at any other height.
   */
  lemma ExampleReplay<H>(api: Api<H>, uuid: Uuid, info1: Bytes, info2: Bytes,
                             a: Bytes, b: Bytes, c: Bytes, now: Timestamp, cursor: Stack<H>)
    requires api.db.tables == Example(api.scheme, uuid, info1, info2, a, b, c, now)
    requires cursor.uuid == uuid
    ensures api.db.Valid()
    ensures var latest := Stack(uuid, now, now, 2, 1, Some(api.scheme.leaf(c)));
            api.HandleSync(cursor) ==
              if cursor.version != 2 then
                Success(VersionResponse(latest, info2, Block(now, 0, c, api.scheme.leaf(c))))
              else if cursor.height == 1 then Success(SyncResponse(latest))
              else if cursor.height == 0 then
                Success(BlockResponse(latest, Block(now, 0, c, api.scheme.leaf(c))))
              else Failure(BlockNotFound)
  {
    ExampleState(api.scheme, uuid, info1, info2, a, b, c, now);
    var t := api.db.tables;
    assert FindStack(t, uuid) == Some(0);
    assert Latest(t, uuid) == Some(t[0].versions[1]);
  }
}

/**
 * The server's database handle, `Db`: it owns the three tables and offers
 * the store operations the request handler uses.  Writes run their SQL
 * statements inside one transaction: every statement applies its effect or
 * raises, and a raise rolls the whole transaction back.
 *
 * The current server and the legacy one share this class.  They differ in
 * the hash type `H` (raw digests or hex strings), in `read`, which the legacy
 * server does not check for a missing stack (`LegacyRead`), and in what the
 * write transactions return for a missing stack: the current store raises the
 * TypeError of reading `hash` and rolls back, the legacy one commits and
 * returns `undefined` (`LegacySelected`); both leave the same tables
 * (`MissingStackWrites`).
 */
module Store {
  import opened Wrappers
  import opened Types
  import opened Sql

  /** What reading a property of `undefined` raises. */
  const UndefinedHash := "Cannot read properties of undefined (reading 'hash')"
  const UndefinedInfo := "Cannot read properties of undefined (reading 'info')"

  /**
   * `intoStack(stackSelect.get({uuid}))`: the latest projection of the stack,
   * or the TypeError of converting the hash of a missing row.
   */
  function Selected<H>(t: Tables<H>, uuid: Uuid): (r: Result<Stack<H>, Error>)
    requires Wellformed(t)
    ensures r == match Latest(t, uuid)
                 case None => Failure(TypeError(UndefinedHash))
                 case Some(v) => Success(Project(uuid, v))
  {
    StackSelectIsLatest(t, uuid);
    match StackSelect(t, uuid)
    case None => Failure(TypeError(UndefinedHash))
    case Some(s) => Success(s)
  }

  /**
   * The legacy store's transactions return `stackSelect.get(args)` without
   * `intoStack`: the latest projection, or `undefined` exactly where the
   * current store raises the TypeError of reading `hash`.
   */
  function LegacySelected<H>(t: Tables<H>, uuid: Uuid): (r: Option<Stack<H>>)
    requires Wellformed(t)
    ensures r.None? <==> Selected(t, uuid).Failure?
    ensures r.Some? ==> Selected(t, uuid) == Success(r.value)
  {
    StackSelectIsLatest(t, uuid);
    StackSelect(t, uuid)
  }

  /**
   * On a stack that does not exist no write statement matches a row, so the
   * legacy store's commit and the current store's rollback on the raise of
   * `intoStack` leave the same tables.
   */
  lemma MissingStackWrites<H>(t: Tables<H>, uuid: Uuid, version: int, height: int, hash: H, info: Bytes,
                                  data: Bytes, blockHash: H, versionHash: H, now: Timestamp)
    requires Wellformed(t) && Selected(t, uuid).Failure?
    ensures AppendBlock(t, uuid, version, height, hash, data, blockHash, versionHash, now) == t
    ensures OpenVersion(t, uuid, version, hash, info, data, blockHash, now) == Success(t)
  {
    StackSelectIsLatest(t, uuid);
    assert FindStack(t, uuid).None?;
    assert VersionAt(t, uuid, version).None? && VersionAt(t, uuid, version + 1).None?;
  }

  class Db<H(==)> {
    var tables: Tables<H>

    ghost predicate Valid()
      reads this
    {
      Wellformed(tables)
    }

    /** A fresh database: the schema with no rows. */
    constructor ()
      ensures Valid() && tables == []
    {
      tables := [];
    }

    /** `statement.run(args)` inside the open transaction: applies the effect, or raises. */
    method Run(res: Result<Tables<H>, Error>) returns (err: Option<Error>)
      modifies this
      ensures res.Success? ==> tables == res.value && err == None
      ensures res.Failure? ==> tables == old(tables) && err == Some(res.error)
    {
      match res
      case Success(t) =>
        tables := t;
        err := None;
      case Failure(e) =>
        err := Some(e);
    }

    /**
     * create: a new stack at version 1, height 1, whose hash is `hash`, with
     * its first block at index 0; a taken uuid raises and nothing changes.
     */
    method Create(uuid: Uuid, info: Bytes, data: Bytes, hash: H, now: Timestamp) returns (r: Result<Stack<H>, Error>)
      requires Valid()
      modifies this
      ensures Valid()
      ensures match NewStack(old(tables), uuid, info, data, hash, now)
              case Failure(e) => r == Failure(e) && tables == old(tables)
              case Success(t) => tables == t && r == Success(Stack(uuid, now, now, 1, 1, Some(hash)))
    {
      var t0 := tables;
      CreateTransaction(t0, uuid, info, data, hash, now);
      var err := Run(CreateStackInsert(tables, uuid));
      if err.None? {
        err := Run(CreateVersionInsert(tables, uuid, info, hash, now));
      }
      if err.None? {
        err := Run(CreateBlockInsert(tables, uuid, data, hash, now));
      }
      if err.Some? {
        tables := t0;
        return Failure(err.value);
      }
      NewStackWellformed(t0, uuid, info, data, hash, now);
      StackSelectLatest(tables, |t0|);
      r := Selected(tables, uuid);
    }

    /**
     * blockWrite: when version `version` of the stack has exactly the claimed
     * height and hash, one block joins it at index `height`, its height grows
     * by one and its hash becomes `versionHash`; any other claim changes
     * nothing and raises nothing.  A missing hash is bound as NULL, which no
     * row's hash equals.  Either way the answer is the stack's latest
     * projection.
     */
    method BlockWrite(uuid: Uuid, version: int, height: int, hash: Option<H>, data: Bytes,
                      blockHash: H, versionHash: H, now: Timestamp) returns (r: Result<Stack<H>, Error>)
      requires Valid()
      modifies this
      ensures Valid()
      ensures tables == if hash.Some? then AppendBlock(old(tables), uuid, version, height, hash.value, data,
                                                       blockHash, versionHash, now)
                        else old(tables)
      ensures r == Selected(tables, uuid)
    {
      if hash.Some? {
        BlockTransaction(tables, uuid, version, height, hash.value, data, blockHash, versionHash, now);
        AppendBlockWellformed(tables, uuid, version, height, hash.value, data, blockHash, versionHash, now);
        var err := Run(BlockInsert(tables, uuid, version, height, hash.value, data, blockHash, now));
        if err.None? {
          tables := VersionUpdate(tables, uuid, version, height, hash.value, versionHash, now);
        }
      }
      r := Selected(tables, uuid);
    }

    /**
     * versionWrite: when version `version` of the stack has the claimed hash,
     * version `version + 1` opens with the block as its block 0; a taken
     * version number raises and the transaction rolls back.  A missing hash
     * or info is bound as NULL (`OpenVersionNull`).
     */
    method VersionWrite(uuid: Uuid, version: int, hash: Option<H>, info: Option<Bytes>, data: Bytes,
                        blockHash: H, now: Timestamp) returns (r: Result<Stack<H>, Error>)
      requires Valid()
      modifies this
      ensures Valid()
      ensures match OpenVersionNull(old(tables), uuid, version, hash, info, data, blockHash, now)
              case Failure(e) => r == Failure(e) && tables == old(tables)
              case Success(t) => tables == t && r == Selected(t, uuid)
    {
      var t0 := tables;
      VersionTransactionNull(t0, uuid, version, hash, info, data, blockHash, now);
      var err := Run(VersionInsertNull(tables, uuid, version, hash, info, blockHash, now));
      if err.None? {
        err := Run(VersionBlockInsert(tables, uuid, version, data, blockHash, now));
      }
      if err.Some? {
        tables := t0;
        return Failure(err.value);
      }
      if hash.Some? && info.Some? {
        OpenVersionWellformed(t0, uuid, version, hash.value, info.value, data, blockHash, now);
      }
      r := Selected(tables, uuid);
    }

    /** vacuum: deletes, one by one, every version below its stack's highest. */
    method Vacuum()
      requires Valid()
      modifies this
      ensures Valid()
      ensures tables == KeepLatest(old(tables))
    {
      var versions := VacuumSelect(tables);
      ghost var t0 := tables;
      PruneNothing(t0);
      for k := 0 to |versions|
        invariant tables == Pruned(t0, versions[..k])
      {
        PruneStep(t0, versions[..k], versions[k].0, versions[k].1);
        PrefixNext(versions, k);
        tables := VersionDelete(tables, versions[k].0, versions[k].1);
      }
      PrefixAll(versions);
      VacuumKeepsLatest(t0);
      KeepLatestWellformed(t0);
    }

    /** read: the stack's latest projection; a missing stack raises "Stack not found". */
    function Read(uuid: Uuid): (r: Result<Stack<H>, Error>)
      requires Valid()
      reads this
      ensures r == match Latest(tables, uuid)
                   case None => Failure(StackNotFound)
                   case Some(v) => Success(Project(uuid, v))
    {
      StackSelectIsLatest(tables, uuid);
      match StackSelect(tables, uuid)
      case None => Failure(StackNotFound)
      case Some(s) => Success(s)
    }

    /** The legacy read: the stack's latest projection, `undefined` when the stack is missing. */
    function LegacyRead(uuid: Uuid): (r: Option<Stack<H>>)
      requires Valid()
      reads this
      ensures r == match Latest(tables, uuid)
                   case None => None
                   case Some(v) => Some(Project(uuid, v))
    {
      StackSelectIsLatest(tables, uuid);
      StackSelect(tables, uuid)
    }

    /** versionRead: the projection of one version; a missing one raises "Stack not found". */
    function VersionRead(uuid: Uuid, version: int): (r: Result<Stack<H>, Error>)
      requires Valid()
      reads this
      ensures r.Success? <==> HasVersion(tables, uuid, version)
      ensures r.Success? ==> r.value.uuid == uuid && r.value.version == version
      ensures r.Failure? ==> r.error == StackNotFound
      ensures r == match VersionAt(tables, uuid, version)
                   case None => Failure(StackNotFound)
                   case Some((i, j)) => Success(Project(uuid, tables[i].versions[j]))
    {
      match StackVersionSelect(tables, uuid, version)
      case None => Failure(StackNotFound)
      case Some(s) => Success(s)
    }

    /**
     * blockRead: block `index` of one version, present exactly for the
     * indices below that version's height; otherwise "Block not found".
     */
    function BlockRead(uuid: Uuid, version: int, index: int): (r: Result<Block<H>, Error>)
      requires Valid()
      reads this
      ensures r == match VersionAt(tables, uuid, version)
                   case None => Failure(BlockNotFound)
                   case Some((i, j)) =>
                     if 0 <= index < tables[i].versions[j].height
                     then Success(IntoBlock(tables[i].versions[j].blocks[index]))
                     else Failure(BlockNotFound)
    {
      BlockSelectByVersion(tables, uuid, version, index);
      match BlockSelect(tables, uuid, version, index)
      case None => Failure(BlockNotFound)
      case Some(b) => Success(b)
    }

    /** infoRead: the info of one version; a missing row has no `info` to read. */
    function InfoRead(uuid: Uuid, version: int): (r: Result<Bytes, Error>)
      requires Valid()
      reads this
      ensures r.Success? <==> HasVersion(tables, uuid, version)
      ensures r.Success? ==>
                exists i, j :: 0 <= i < |tables| && 0 <= j < |tables[i].versions| &&
                  tables[i].uuid == uuid && tables[i].versions[j].version == version &&
                  r.value == tables[i].versions[j].info
      ensures r.Failure? ==> r.error == TypeError(UndefinedInfo)
      ensures r == match VersionAt(tables, uuid, version)
                   case None => Failure(TypeError(UndefinedInfo))
                   case Some((i, j)) => Success(tables[i].versions[j].info)
    {
      match InfoSelect(tables, uuid, version)
      case None => Failure(TypeError(UndefinedInfo))
      case Some(info) => Success(info)
    }

    /**
     * size: with a uuid, one "size.block" entry per block of that stack;
     * without, one "size.version" entry per version that has blocks.
     */
    function Size(uuid: Option<Uuid>): (r: seq<SizeEntry<H>>)
      reads this
      ensures uuid.Some? ==>
                |r| == |StackSizeSelect(tables, uuid.value)| &&
                forall n :: 0 <= n < |r| ==>
                  var row := StackSizeSelect(tables, uuid.value)[n];
                  SizeType(r[n]) == "size.block" &&
                  r[n] == SizeBlock(row.version, row.created, row.index, row.hash, row.size)
      ensures uuid.None? ==>
                |r| == |SizeSelect(tables)| &&
                forall n :: 0 <= n < |r| ==>
                  var row := SizeSelect(tables)[n];
                  SizeType(r[n]) == "size.version" &&
                  r[n] == SizeVersion(row.uuid, row.created, row.updated, row.version, row.height, row.hash, row.size)
      ensures IsSizeBlock(r) <==> uuid.Some? && |r| > 0
      ensures IsSizeVersion(r) <==> uuid.None? && |r| > 0
    {
      match uuid
      case Some(u) =>
        var rows := StackSizeSelect(tables, u);
        seq(|rows|, n requires 0 <= n < |rows| =>
          SizeBlock(rows[n].version, rows[n].created, rows[n].index, rows[n].hash, rows[n].size))
      case None =>
        var rows := SizeSelect(tables);
        seq(|rows|, n requires 0 <= n < |rows| =>
          SizeVersion(rows[n].uuid, rows[n].created, rows[n].updated, rows[n].version,
                      rows[n].height, rows[n].hash, rows[n].size))
    }
  }
}

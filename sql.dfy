/**
 * The three tables of the store (stack -> versions -> blocks) and the SQL
 * statements that query and change them.  A database state is a value of
 * type `Tables`: the stack rows in insertion order, each holding its version
 * rows in insertion order, each holding its block rows.  Nesting the rows
 * this way makes the two foreign keys (and their ON DELETE CASCADE) hold by
 * construction.  Every statement is a function from the state before it to
 * the state after it (or to the constraint failure it raises); the Db class
 * applies them in place.
 */
module Sql {
  import opened Wrappers
  import opened Types

  datatype BlockRow<H> = BlockRow(created: Timestamp, index: int, data: Bytes, hash: H)

  datatype VersionRow<H> = VersionRow(created: Timestamp, updated: Timestamp, version: int,
                                      info: Bytes, height: int, hash: H,
                                      blocks: seq<BlockRow<H>>)

  datatype StackRow<H> = StackRow(uuid: Uuid, versions: seq<VersionRow<H>>)

  type Tables<H> = seq<StackRow<H>>

  /** The column lists SQLite names when a UNIQUE constraint fails. */
  const StackKey := "stack_table.uuid"
  const VersionKey := "version_table.stack_id, version_table.version"
  const BlockKey := "block_table.version_id, block_table.index"
  /** The column SQLite names when a NULL `info` is inserted. */
  const InfoColumn := "version_table.info"

  // ---------------------------------------------------------------------
  // Constraints

  /** The schema's own constraints: the three UNIQUE keys and the three CHECKs. */
  ghost predicate SchemaConstraints<H>(t: Tables<H>)
  {
    (forall i, j :: 0 <= i < j < |t| ==> t[i].uuid != t[j].uuid) &&
    forall i :: 0 <= i < |t| ==>
      (forall j, k :: 0 <= j < k < |t[i].versions| ==>
         t[i].versions[j].version != t[i].versions[k].version) &&
      forall j :: 0 <= j < |t[i].versions| ==>
        t[i].versions[j].version > 0 && t[i].versions[j].height > 0 &&
        (forall a :: 0 <= a < |t[i].versions[j].blocks| ==> t[i].versions[j].blocks[a].index >= 0) &&
        forall a, b :: 0 <= a < b < |t[i].versions[j].blocks| ==>
          t[i].versions[j].blocks[a].index != t[i].versions[j].blocks[b].index
  }

  ghost predicate UuidsUnique<H>(t: Tables<H>)
  {
    forall i, j :: 0 <= i < j < |t| ==> t[i].uuid != t[j].uuid
  }

  /** A version row holds exactly the blocks `0 .. height-1`, in order. */
  ghost predicate BlocksContiguous<H>(v: VersionRow<H>)
  {
    v.height >= 1 && |v.blocks| == v.height &&
    forall k :: 0 <= k < |v.blocks| ==> v.blocks[k].index == k
  }

  /** A stack holds at least one version, numbered consecutively from at least 1. */
  ghost predicate VersionsConsecutive<H>(vs: seq<VersionRow<H>>)
  {
    |vs| >= 1 && vs[0].version >= 1 &&
    forall k :: 0 <= k < |vs| ==> vs[k].version == vs[0].version + k
  }

  ghost predicate StackWellformed<H>(s: StackRow<H>)
  {
    VersionsConsecutive(s.versions) &&
    forall k :: 0 <= k < |s.versions| ==> BlocksContiguous(s.versions[k])
  }

  /** The invariant every committed state of the store keeps. */
  ghost predicate Wellformed<H>(t: Tables<H>)
  {
    UuidsUnique(t) && forall i :: 0 <= i < |t| ==> StackWellformed(t[i])
  }

  /** The invariant is stronger than the schema: no committed state violates a constraint. */
  lemma WellformedMeetsSchema<H>(t: Tables<H>)
    requires Wellformed(t)
    ensures SchemaConstraints(t)
  {
    forall i | 0 <= i < |t|
      ensures forall j, k :: 0 <= j < k < |t[i].versions| ==>
                t[i].versions[j].version != t[i].versions[k].version
      ensures forall j :: 0 <= j < |t[i].versions| ==>
                t[i].versions[j].version > 0 && t[i].versions[j].height > 0 &&
                (forall a :: 0 <= a < |t[i].versions[j].blocks| ==> t[i].versions[j].blocks[a].index >= 0) &&
                forall a, b :: 0 <= a < b < |t[i].versions[j].blocks| ==>
                  t[i].versions[j].blocks[a].index != t[i].versions[j].blocks[b].index
    {
      assert StackWellformed(t[i]);
      var vs := t[i].versions;
      forall j | 0 <= j < |vs|
        ensures vs[j].version > 0 && vs[j].height > 0
      {
        assert vs[j].version == vs[0].version + j;
        assert BlocksContiguous(vs[j]);
      }
      forall j | 0 <= j < |vs|
        ensures forall a, b :: 0 <= a < b < |vs[j].blocks| ==> vs[j].blocks[a].index != vs[j].blocks[b].index
        ensures forall a :: 0 <= a < |vs[j].blocks| ==> vs[j].blocks[a].index >= 0
      {
        assert BlocksContiguous(vs[j]);
      }
    }
  }

  // ---------------------------------------------------------------------
  // Row lookup (the joins on stack_table.uuid, version_table.version and
  // block_table.index)

  function FindStack<H>(t: Tables<H>, uuid: Uuid): (r: Option<nat>)
    ensures r.Some? ==> r.value < |t| && t[r.value].uuid == uuid
    ensures r.None? <==> forall i :: 0 <= i < |t| ==> t[i].uuid != uuid
  {
    if |t| == 0 then None
    else if t[|t| - 1].uuid == uuid then Some(|t| - 1)
    else FindStack(t[..|t| - 1], uuid)
  }

  function FindVersion<H>(vs: seq<VersionRow<H>>, version: int): (r: Option<nat>)
    ensures r.Some? ==> r.value < |vs| && vs[r.value].version == version
    ensures r.None? <==> forall k :: 0 <= k < |vs| ==> vs[k].version != version
  {
    if |vs| == 0 then None
    else if vs[|vs| - 1].version == version then Some(|vs| - 1)
    else FindVersion(vs[..|vs| - 1], version)
  }

  function FindBlock<H>(bs: seq<BlockRow<H>>, index: int): (r: Option<nat>)
    ensures r.Some? ==> r.value < |bs| && bs[r.value].index == index
    ensures r.None? <==> forall k :: 0 <= k < |bs| ==> bs[k].index != index
  {
    if |bs| == 0 then None
    else if bs[|bs| - 1].index == index then Some(|bs| - 1)
    else FindBlock(bs[..|bs| - 1], index)
  }

  /** Some stack `uuid` holds a version numbered `version`. */
  ghost predicate HasVersion<H>(t: Tables<H>, uuid: Uuid, version: int)
  {
    exists i, j :: 0 <= i < |t| && 0 <= j < |t[i].versions| &&
                   t[i].uuid == uuid && t[i].versions[j].version == version
  }

  /** Position (stack row, version row) of version `version` of stack `uuid`. */
  function VersionAt<H>(t: Tables<H>, uuid: Uuid, version: int): (r: Option<(nat, nat)>)
    ensures r.Some? ==> r.value.0 < |t| && r.value.1 < |t[r.value.0].versions| &&
                        t[r.value.0].uuid == uuid && t[r.value.0].versions[r.value.1].version == version
    ensures UuidsUnique(t) ==> (r.Some? <==> HasVersion(t, uuid, version))
  {
    match FindStack(t, uuid)
    case None => None
    case Some(i) =>
      match FindVersion(t[i].versions, version)
      case None => None
      case Some(j) => Some((i, j))
  }

  /** With unique uuids the lookup finds the one row that carries the uuid. */
  lemma FindStackUnique<H>(t: Tables<H>, i: nat)
    requires UuidsUnique(t) && i < |t|
    ensures FindStack(t, t[i].uuid) == Some(i)
  {
  }

  /** Index of the highest-numbered version (ORDER BY version DESC LIMIT 1). */
  function MaxVersionIndex<H>(vs: seq<VersionRow<H>>): (r: nat)
    requires |vs| > 0
    ensures r < |vs| && forall k :: 0 <= k < |vs| ==> vs[k].version <= vs[r].version
  {
    if |vs| == 1 then 0
    else
      var m := MaxVersionIndex(vs[..|vs| - 1]);
      if vs[m].version < vs[|vs| - 1].version then |vs| - 1 else m
  }

  /** Under the invariant the highest-numbered version is the last row. */
  lemma MaxIsLast<H>(vs: seq<VersionRow<H>>)
    requires VersionsConsecutive(vs)
    ensures MaxVersionIndex(vs) == |vs| - 1
  {
    var m := MaxVersionIndex(vs);
    assert vs[m].version == vs[0].version + m;
    assert vs[|vs| - 1].version == vs[0].version + |vs| - 1;
  }

  /** Under the invariant version `v` of a stack sits at offset `v - first`. */
  lemma VersionAtWellformed<H>(t: Tables<H>, i: nat, version: int)
    requires Wellformed(t) && i < |t|
    ensures var vs := t[i].versions;
            VersionAt(t, t[i].uuid, version) ==
              if vs[0].version <= version < vs[0].version + |vs|
              then Some((i, version - vs[0].version)) else None
  {
    var vs := t[i].versions;
    assert StackWellformed(t[i]);
    FindStackUnique(t, i);
    var g := FindVersion(vs, version);
    if vs[0].version <= version < vs[0].version + |vs| {
      assert vs[version - vs[0].version].version == version;
      assert g.Some?;
      assert vs[g.value].version == vs[0].version + g.value;
    } else {
      forall k | 0 <= k < |vs| ensures vs[k].version != version {
        assert vs[k].version == vs[0].version + k;
      }
    }
  }

  // ---------------------------------------------------------------------
  // Queries

  /** The stack as the protocol sees it: the projection of one version row. */
  function Project<H>(uuid: Uuid, v: VersionRow<H>): Stack<H>
  {
    Stack(uuid, v.created, v.updated, v.version, v.height, Some(v.hash))
  }

  function IntoBlock<H>(b: BlockRow<H>): Block<H>
  {
    Block(b.created, b.index, b.data, b.hash)
  }

  /** STACK_SELECT: the projection of the stack's highest-numbered version. */
  function StackSelect<H>(t: Tables<H>, uuid: Uuid): (r: Option<Stack<H>>)
    ensures r.Some? ==>
              r.value.uuid == uuid &&
              exists i, j :: 0 <= i < |t| && 0 <= j < |t[i].versions| && t[i].uuid == uuid &&
                r.value == Project(uuid, t[i].versions[j]) &&
                forall k :: 0 <= k < |t[i].versions| ==> t[i].versions[k].version <= r.value.version
    ensures UuidsUnique(t) && r.None? ==>
              forall i :: 0 <= i < |t| && t[i].uuid == uuid ==> |t[i].versions| == 0
  {
    match FindStack(t, uuid)
    case None => None
    case Some(i) =>
      if |t[i].versions| == 0 then None
      else Some(Project(uuid, t[i].versions[MaxVersionIndex(t[i].versions)]))
  }

  /** STACK_VERSION_SELECT: the projection of one given version. */
  function StackVersionSelect<H>(t: Tables<H>, uuid: Uuid, version: int): (r: Option<Stack<H>>)
    ensures r.Some? ==> r.value.uuid == uuid && r.value.version == version && r.value.hash.Some?
    ensures UuidsUnique(t) ==> (r.Some? <==> HasVersion(t, uuid, version))
  {
    match VersionAt(t, uuid, version)
    case None => None
    case Some((i, j)) => Some(Project(uuid, t[i].versions[j]))
  }

  /** BLOCK_SELECT: block `index` of one given version. */
  function BlockSelect<H>(t: Tables<H>, uuid: Uuid, version: int, index: int): (r: Option<Block<H>>)
    ensures r.Some? ==> r.value.index == index && HasVersion(t, uuid, version)
  {
    match VersionAt(t, uuid, version)
    case None => None
    case Some((i, j)) =>
      match FindBlock(t[i].versions[j].blocks, index)
      case None => None
      case Some(k) => Some(IntoBlock(t[i].versions[j].blocks[k]))
  }

  /** Under the invariant a block is found exactly for the indices below the version's height. */
  lemma BlockSelectWellformed<H>(t: Tables<H>, i: nat, j: nat, index: int)
    requires Wellformed(t) && i < |t| && j < |t[i].versions|
    ensures var v := t[i].versions[j];
            BlockSelect(t, t[i].uuid, v.version, index) ==
              if 0 <= index < v.height then Some(IntoBlock(v.blocks[index])) else None
  {
    var v := t[i].versions[j];
    assert StackWellformed(t[i]);
    assert v.version == t[i].versions[0].version + j;
    VersionAtWellformed(t, i, v.version);
    assert BlocksContiguous(v);
    var f := FindBlock(v.blocks, index);
    if 0 <= index < v.height {
      assert v.blocks[index].index == index;
    }
  }

  /** INFO_SELECT: the info column of one given version. */
  function InfoSelect<H>(t: Tables<H>, uuid: Uuid, version: int): (r: Option<Bytes>)
    ensures UuidsUnique(t) ==> (r.Some? <==> HasVersion(t, uuid, version))
    ensures r.Some? ==>
              exists i, j :: 0 <= i < |t| && 0 <= j < |t[i].versions| && t[i].uuid == uuid &&
                t[i].versions[j].version == version && r.value == t[i].versions[j].info
  {
    match VersionAt(t, uuid, version)
    case None => None
    case Some((i, j)) => Some(t[i].versions[j].info)
  }

  // ---------------------------------------------------------------------
  // Statements

  /** Replaces the version row at (i, j). */
  function WithVersion<H>(t: Tables<H>, i: nat, j: nat, row: VersionRow<H>): Tables<H>
    requires i < |t| && j < |t[i].versions|
  {
    t[i := t[i].(versions := t[i].versions[j := row])]
  }

  /** Inserts a version row into stack row i, unless its number is taken there. */
  function InsertVersion<H>(t: Tables<H>, i: nat, row: VersionRow<H>): Result<Tables<H>, Error>
    requires i < |t|
  {
    if FindVersion(t[i].versions, row.version).Some? then Failure(UniqueViolation(VersionKey))
    else Success(t[i := t[i].(versions := t[i].versions + [row])])
  }

  /** Inserts a block row into version row (i, j), unless its index is taken there. */
  function InsertBlock<H>(t: Tables<H>, i: nat, j: nat, b: BlockRow<H>): Result<Tables<H>, Error>
    requires i < |t| && j < |t[i].versions|
  {
    var v := t[i].versions[j];
    if FindBlock(v.blocks, b.index).Some? then Failure(UniqueViolation(BlockKey))
    else Success(WithVersion(t, i, j, v.(blocks := v.blocks + [b])))
  }

  /** CREATE_STACK_INSERT */
  function CreateStackInsert<H>(t: Tables<H>, uuid: Uuid): Result<Tables<H>, Error>
  {
    if FindStack(t, uuid).Some? then Failure(UniqueViolation(StackKey))
    else Success(t + [StackRow(uuid, [])])
  }

  /** CREATE_VERSION_INSERT: version 1 with height 1; nothing when the stack row is missing. */
  function CreateVersionInsert<H>(t: Tables<H>, uuid: Uuid, info: Bytes, hash: H, now: Timestamp): Result<Tables<H>, Error>
  {
    match FindStack(t, uuid)
    case None => Success(t)
    case Some(i) => InsertVersion(t, i, VersionRow(now, now, 1, info, 1, hash, []))
  }

  /** CREATE_BLOCK_INSERT: block 0 of version 1. */
  function CreateBlockInsert<H>(t: Tables<H>, uuid: Uuid, data: Bytes, hash: H, now: Timestamp): Result<Tables<H>, Error>
  {
    match VersionAt(t, uuid, 1)
    case None => Success(t)
    case Some((i, j)) => InsertBlock(t, i, j, BlockRow(now, 0, data, hash))
  }

  /**
   * The version row a block write targets: version `version` of stack `uuid`,
   * provided its height and hash are the claimed ones.  Any version row
   * qualifies, the latest or a superseded one.
   */
  function Claimed<H(==)>(t: Tables<H>, uuid: Uuid, version: int, height: int, hash: H): (r: Option<(nat, nat)>)
    ensures r.Some? ==> r.value.0 < |t| && r.value.1 < |t[r.value.0].versions| &&
                        t[r.value.0].uuid == uuid && t[r.value.0].versions[r.value.1].version == version &&
                        t[r.value.0].versions[r.value.1].height == height &&
                        t[r.value.0].versions[r.value.1].hash == hash
  {
    match VersionAt(t, uuid, version)
    case None => None
    case Some((i, j)) =>
      if t[i].versions[j].height == height && t[i].versions[j].hash == hash then Some((i, j)) else None
  }

  /** The version row a version write targets: its height is not compared. */
  function ClaimedVersion<H(==)>(t: Tables<H>, uuid: Uuid, version: int, hash: H): (r: Option<(nat, nat)>)
    ensures r.Some? ==> r.value.0 < |t| && r.value.1 < |t[r.value.0].versions| &&
                        t[r.value.0].uuid == uuid && t[r.value.0].versions[r.value.1].version == version &&
                        t[r.value.0].versions[r.value.1].hash == hash
  {
    match VersionAt(t, uuid, version)
    case None => None
    case Some((i, j)) => if t[i].versions[j].hash == hash then Some((i, j)) else None
  }

  /** BLOCK_INSERT: the new block takes index = the targeted version's height. */
  function BlockInsert<H(==)>(t: Tables<H>, uuid: Uuid, version: int, height: int, hash: H,
                              data: Bytes, blockHash: H, now: Timestamp): Result<Tables<H>, Error>
  {
    match Claimed(t, uuid, version, height, hash)
    case None => Success(t)
    case Some((i, j)) => InsertBlock(t, i, j, BlockRow(now, t[i].versions[j].height, data, blockHash))
  }

  /** VERSION_UPDATE: under the same match, one more block and the new chained hash. */
  function VersionUpdate<H(==)>(t: Tables<H>, uuid: Uuid, version: int, height: int, hash: H,
                                versionHash: H, now: Timestamp): Tables<H>
  {
    match Claimed(t, uuid, version, height, hash)
    case None => t
    case Some((i, j)) =>
      var v := t[i].versions[j];
      WithVersion(t, i, j, v.(updated := now, height := v.height + 1, hash := versionHash))
  }

  /** VERSION_INSERT: version `version + 1` with height 1, sealed by the block's hash. */
  function VersionInsert<H(==)>(t: Tables<H>, uuid: Uuid, version: int, hash: H, info: Bytes,
                                blockHash: H, now: Timestamp): Result<Tables<H>, Error>
  {
    match ClaimedVersion(t, uuid, version, hash)
    case None => Success(t)
    case Some((i, j)) =>
      InsertVersion(t, i, VersionRow(now, now, t[i].versions[j].version + 1, info, 1, blockHash, []))
  }

  /** VERSION_BLOCK_INSERT: block 0 of version `version + 1`, whatever its hash. */
  function VersionBlockInsert<H>(t: Tables<H>, uuid: Uuid, version: int, data: Bytes,
                                 blockHash: H, now: Timestamp): Result<Tables<H>, Error>
  {
    match VersionAt(t, uuid, version + 1)
    case None => Success(t)
    case Some((i, j)) => InsertBlock(t, i, j, BlockRow(now, 0, data, blockHash))
  }

  /**
   * VERSION_INSERT with `hash` or `info` possibly unbound, which the driver
   * binds as NULL.  `ve.hash = NULL` holds for no row, so a missing hash
   * inserts nothing; a NULL info violates its NOT NULL column, which SQLite
   * checks before the key, once the claim matches and the row is inserted.
   */
  function VersionInsertNull<H(==)>(t: Tables<H>, uuid: Uuid, version: int, hash: Option<H>, info: Option<Bytes>,
                                    blockHash: H, now: Timestamp): Result<Tables<H>, Error>
  {
    if hash.None? then Success(t)
    else if info.Some? then VersionInsert(t, uuid, version, hash.value, info.value, blockHash, now)
    else if ClaimedVersion(t, uuid, version, hash.value).Some? then Failure(NotNullViolation(InfoColumn))
    else Success(t)
  }

  // ---------------------------------------------------------------------
  // The transactions, each as one step

  /** A new stack: version 1, height 1, sealed by the hash of its single block 0. */
  function NewStack<H>(t: Tables<H>, uuid: Uuid, info: Bytes, data: Bytes, hash: H, now: Timestamp): Result<Tables<H>, Error>
  {
    if FindStack(t, uuid).Some? then Failure(UniqueViolation(StackKey))
    else Success(t + [StackRow(uuid, [VersionRow(now, now, 1, info, 1, hash, [BlockRow(now, 0, data, hash)])])])
  }

  /** Threads a statement result into the next statement, stopping at the first failure. */
  function Then<H>(r: Result<Tables<H>, Error>, f: Tables<H> -> Result<Tables<H>, Error>): Result<Tables<H>, Error>
  {
    match r
    case Failure(e) => Failure(e)
    case Success(t) => f(t)
  }

  /** The three inserts of a create, run in order, amount to one new stack. */
  lemma CreateTransaction<H>(t: Tables<H>, uuid: Uuid, info: Bytes, data: Bytes, hash: H, now: Timestamp)
    ensures Then(Then(CreateStackInsert(t, uuid),
                      (t1: Tables<H>) => CreateVersionInsert(t1, uuid, info, hash, now)),
                 (t2: Tables<H>) => CreateBlockInsert(t2, uuid, data, hash, now))
            == NewStack(t, uuid, info, data, hash, now)
  {
    if FindStack(t, uuid).None? {
      var t1 := t + [StackRow(uuid, [])];
      assert FindStack(t1, uuid) == Some(|t|);
      var row := VersionRow(now, now, 1, info, 1, hash, []);
      assert t1[|t|].versions + [row] == [row];
      var t2 := t + [StackRow(uuid, [row])];
      assert t1[|t| := t1[|t|].(versions := t1[|t|].versions + [row])] == t2;
      assert CreateVersionInsert(t1, uuid, info, hash, now) == Success(t2);
      assert FindStack(t2, uuid) == Some(|t|);
      assert VersionAt(t2, uuid, 1) == Some((|t|, 0));
      var b := BlockRow(now, 0, data, hash);
      assert row.(blocks := row.blocks + [b]) == VersionRow(now, now, 1, info, 1, hash, [b]);
      assert [row][0 := row.(blocks := row.blocks + [b])] == [VersionRow(now, now, 1, info, 1, hash, [b])];
      assert WithVersion(t2, |t|, 0, row.(blocks := row.blocks + [b])) ==
             t + [StackRow(uuid, [VersionRow(now, now, 1, info, 1, hash, [b])])];
    }
  }

  /** A new stack keeps the invariant. */
  lemma NewStackWellformed<H>(t: Tables<H>, uuid: Uuid, info: Bytes, data: Bytes, hash: H, now: Timestamp)
    requires Wellformed(t)
    requires NewStack(t, uuid, info, data, hash, now).Success?
    ensures Wellformed(NewStack(t, uuid, info, data, hash, now).value)
  {
    var t' := NewStack(t, uuid, info, data, hash, now).value;
    assert StackWellformed(t'[|t|]);
    forall i | 0 <= i < |t'| ensures StackWellformed(t'[i]) {
      if i < |t| { assert t'[i] == t[i]; }
    }
  }

  /**
   * A block write as one step: when the claim matches a version row, that
   * row gains exactly one block at index = its height, its height grows by
   * one and its hash becomes `versionHash`; otherwise nothing changes.
   */
  function AppendBlock<H(==)>(t: Tables<H>, uuid: Uuid, version: int, height: int, hash: H,
                              data: Bytes, blockHash: H, versionHash: H, now: Timestamp): Tables<H>
  {
    match Claimed(t, uuid, version, height, hash)
    case None => t
    case Some((i, j)) => WithVersion(t, i, j, Grown(t[i].versions[j], data, blockHash, versionHash, now))
  }

  /** The claimed version row after a block write: one more block at index = its old height. */
  function Grown<H>(v: VersionRow<H>, data: Bytes, blockHash: H, versionHash: H, now: Timestamp): (r: VersionRow<H>)
    ensures r.version == v.version && r.info == v.info && r.created == v.created
    ensures r.height == v.height + 1 && r.hash == versionHash && r.updated == now
    ensures r.blocks == v.blocks + [BlockRow(now, v.height, data, blockHash)]
  {
    v.(updated := now, height := v.height + 1, hash := versionHash,
       blocks := v.blocks + [BlockRow(now, v.height, data, blockHash)])
  }

  /** The lookups depend on the keys only. */
  lemma FindStackKeys<H>(t: Tables<H>, t': Tables<H>, uuid: Uuid)
    requires |t| == |t'| && forall k :: 0 <= k < |t| ==> t[k].uuid == t'[k].uuid
    ensures FindStack(t, uuid) == FindStack(t', uuid)
    decreases |t|
  {
    if |t| > 0 && t[|t| - 1].uuid != uuid {
      FindStackKeys(t[..|t| - 1], t'[..|t| - 1], uuid);
    }
  }

  lemma FindVersionKeys<H>(vs: seq<VersionRow<H>>, vs': seq<VersionRow<H>>, version: int)
    requires |vs| == |vs'| && forall k :: 0 <= k < |vs| ==> vs[k].version == vs'[k].version
    ensures FindVersion(vs, version) == FindVersion(vs', version)
    decreases |vs|
  {
    if |vs| > 0 && vs[|vs| - 1].version != version {
      FindVersionKeys(vs[..|vs| - 1], vs'[..|vs| - 1], version);
    }
  }

  /** Rewriting a version row without renumbering it leaves every lookup where it was. */
  lemma WithVersionKeys<H>(t: Tables<H>, i: nat, j: nat, row: VersionRow<H>, uuid: Uuid, version: int)
    requires i < |t| && j < |t[i].versions| && row.version == t[i].versions[j].version
    ensures VersionAt(WithVersion(t, i, j, row), uuid, version) == VersionAt(t, uuid, version)
  {
    var t' := WithVersion(t, i, j, row);
    FindStackKeys(t, t', uuid);
    match FindStack(t, uuid)
    case None =>
    case Some(m) =>
      FindVersionKeys(t[m].versions, t'[m].versions, version);
  }

  /** Rewriting a version row other than a stack's last leaves every stack's latest version where it was. */
  lemma WithVersionLatest<H>(t: Tables<H>, i: nat, j: nat, row: VersionRow<H>, uuid: Uuid)
    requires i < |t| && j < |t[i].versions| - 1
    ensures Latest(WithVersion(t, i, j, row), uuid) == Latest(t, uuid)
  {
    var t' := WithVersion(t, i, j, row);
    FindStackKeys(t, t', uuid);
    match FindStack(t, uuid)
    case None =>
    case Some(m) =>
      if m == i {
        assert t'[i].versions[|t[i].versions| - 1] == t[i].versions[|t[i].versions| - 1];
      }
  }

  lemma WithVersionTwice<H>(t: Tables<H>, i: nat, j: nat, r1: VersionRow<H>, r2: VersionRow<H>)
    requires i < |t| && j < |t[i].versions|
    ensures WithVersion(WithVersion(t, i, j, r1), i, j, r2) == WithVersion(t, i, j, r2)
  {
    assert t[i].versions[j := r1][j := r2] == t[i].versions[j := r2];
  }

  /** BLOCK_INSERT followed by VERSION_UPDATE is the one-step block write, and never fails. */
  lemma BlockTransaction<H>(t: Tables<H>, uuid: Uuid, version: int, height: int, hash: H,
                                data: Bytes, blockHash: H, versionHash: H, now: Timestamp)
    requires Wellformed(t)
    ensures BlockInsert(t, uuid, version, height, hash, data, blockHash, now).Success?
    ensures VersionUpdate(BlockInsert(t, uuid, version, height, hash, data, blockHash, now).value,
                          uuid, version, height, hash, versionHash, now)
            == AppendBlock(t, uuid, version, height, hash, data, blockHash, versionHash, now)
  {
    match Claimed(t, uuid, version, height, hash)
    case None =>
    case Some((i, j)) =>
      var v := t[i].versions[j];
      assert StackWellformed(t[i]) && BlocksContiguous(v);
      assert FindBlock(v.blocks, v.height).None?;
      var b := BlockRow(now, v.height, data, blockHash);
      var t1 := WithVersion(t, i, j, v.(blocks := v.blocks + [b]));
      WithVersionKeys(t, i, j, v.(blocks := v.blocks + [b]), uuid, version);
      assert Claimed(t1, uuid, version, height, hash) == Some((i, j));
      var v1 := t1[i].versions[j];
      assert v1 == v.(blocks := v.blocks + [b]);
      WithVersionTwice(t, i, j, v1, v1.(updated := now, height := v1.height + 1, hash := versionHash));
  }

  /** The one-step block write keeps the invariant. */
  lemma AppendBlockWellformed<H>(t: Tables<H>, uuid: Uuid, version: int, height: int, hash: H,
                                     data: Bytes, blockHash: H, versionHash: H, now: Timestamp)
    requires Wellformed(t)
    ensures Wellformed(AppendBlock(t, uuid, version, height, hash, data, blockHash, versionHash, now))
  {
    match Claimed(t, uuid, version, height, hash)
    case None =>
    case Some((i, j)) =>
      var t' := AppendBlock(t, uuid, version, height, hash, data, blockHash, versionHash, now);
      assert StackWellformed(t[i]);
      var v := t[i].versions[j];
      assert BlocksContiguous(v);
      assert BlocksContiguous(t'[i].versions[j]);
      assert StackWellformed(t'[i]) by {
        forall k | 0 <= k < |t'[i].versions| ensures BlocksContiguous(t'[i].versions[k]) {
          if k != j { assert t'[i].versions[k] == t[i].versions[k]; }
        }
        assert t'[i].versions[0].version == t[i].versions[0].version;
        forall k | 0 <= k < |t'[i].versions|
          ensures t'[i].versions[k].version == t'[i].versions[0].version + k
        {
          assert t'[i].versions[k].version == t[i].versions[k].version;
        }
      }
      forall k | 0 <= k < |t'| ensures StackWellformed(t'[k]) {
        if k != i { assert t'[k] == t[k]; }
      }
  }

  /**
   * A version write as one step.  When version `version` of the stack carries
   * the claimed hash, version `version + 1` is appended with height 1, hash
   * `blockHash` and block 0 — unless that number is already taken, which
   * violates the version key.  Otherwise nothing is inserted, but an existing
   * version `version + 1` still makes the block insert violate the block key.
   */
  function OpenVersion<H(==)>(t: Tables<H>, uuid: Uuid, version: int, hash: H, info: Bytes,
                              data: Bytes, blockHash: H, now: Timestamp): Result<Tables<H>, Error>
  {
    match ClaimedVersion(t, uuid, version, hash)
    case Some((i, _)) =>
      if VersionAt(t, uuid, version + 1).Some? then Failure(UniqueViolation(VersionKey))
      else Success(t[i := t[i].(versions := t[i].versions +
                                  [VersionRow(now, now, version + 1, info, 1, blockHash,
                                              [BlockRow(now, 0, data, blockHash)])])])
    case None =>
      if VersionAt(t, uuid, version + 1).Some? then Failure(UniqueViolation(BlockKey))
      else Success(t)
  }

  /** VERSION_INSERT followed by VERSION_BLOCK_INSERT is the one-step version write. */
  lemma VersionTransaction<H>(t: Tables<H>, uuid: Uuid, version: int, hash: H, info: Bytes,
                              data: Bytes, blockHash: H, now: Timestamp)
    requires Wellformed(t)
    ensures Then(VersionInsert(t, uuid, version, hash, info, blockHash, now),
                 (t1: Tables<H>) => VersionBlockInsert(t1, uuid, version, data, blockHash, now))
            == OpenVersion(t, uuid, version, hash, info, data, blockHash, now)
  {
    match ClaimedVersion(t, uuid, version, hash)
    case Some((i, j)) =>
      VersionTransactionMatched(t, uuid, version, hash, info, data, blockHash, now, i, j);
    case None =>
      match VersionAt(t, uuid, version + 1)
      case None =>
      case Some((i, j)) =>
        assert StackWellformed(t[i]) && BlocksContiguous(t[i].versions[j]);
        assert t[i].versions[j].blocks[0].index == 0;
  }

  /**
   * A version write with `hash` or `info` possibly NULL as one step.  With
   * both bound it is `OpenVersion`.  An unbound field never changes the
   * tables: a NULL info fails exactly when the claim matches a row, and
   * otherwise only an existing version `version + 1` makes the block insert
   * violate the block key.
   */
  function OpenVersionNull<H(==)>(t: Tables<H>, uuid: Uuid, version: int, hash: Option<H>, info: Option<Bytes>,
                                  data: Bytes, blockHash: H, now: Timestamp): (r: Result<Tables<H>, Error>)
    ensures hash.Some? && info.Some? ==> r == OpenVersion(t, uuid, version, hash.value, info.value, data, blockHash, now)
    ensures (hash.None? || info.None?) && r.Success? ==> r.value == t
    ensures (hash.None? || info.None?) && r.Failure? ==>
              r.error == NotNullViolation(InfoColumn) || r.error == UniqueViolation(BlockKey)
    ensures hash.Some? && info.None? ==>
              (r == Failure(NotNullViolation(InfoColumn)) <==> ClaimedVersion(t, uuid, version, hash.value).Some?)
  {
    if hash.Some? && info.Some? then OpenVersion(t, uuid, version, hash.value, info.value, data, blockHash, now)
    else if hash.Some? && ClaimedVersion(t, uuid, version, hash.value).Some? then Failure(NotNullViolation(InfoColumn))
    else if VersionAt(t, uuid, version + 1).Some? then Failure(UniqueViolation(BlockKey))
    else Success(t)
  }

  /** VERSION_INSERT with NULL bindings followed by VERSION_BLOCK_INSERT is the one-step `OpenVersionNull`. */
  lemma VersionTransactionNull<H>(t: Tables<H>, uuid: Uuid, version: int, hash: Option<H>, info: Option<Bytes>,
                                  data: Bytes, blockHash: H, now: Timestamp)
    requires Wellformed(t)
    ensures Then(VersionInsertNull(t, uuid, version, hash, info, blockHash, now),
                 (t1: Tables<H>) => VersionBlockInsert(t1, uuid, version, data, blockHash, now))
            == OpenVersionNull(t, uuid, version, hash, info, data, blockHash, now)
  {
    if hash.Some? && info.Some? {
      VersionTransaction(t, uuid, version, hash.value, info.value, data, blockHash, now);
    } else if hash.Some? && ClaimedVersion(t, uuid, version, hash.value).Some? {
    } else {
      match VersionAt(t, uuid, version + 1)
      case None =>
      case Some((i, j)) =>
        assert StackWellformed(t[i]) && BlocksContiguous(t[i].versions[j]);
        assert t[i].versions[j].blocks[0].index == 0;
    }
  }

  lemma VersionTransactionMatched<H>(t: Tables<H>, uuid: Uuid, version: int, hash: H, info: Bytes,
                                     data: Bytes, blockHash: H, now: Timestamp, i: nat, j: nat)
    requires Wellformed(t)
    requires ClaimedVersion(t, uuid, version, hash) == Some((i, j))
    ensures Then(VersionInsert(t, uuid, version, hash, info, blockHash, now),
                 (t1: Tables<H>) => VersionBlockInsert(t1, uuid, version, data, blockHash, now))
            == OpenVersion(t, uuid, version, hash, info, data, blockHash, now)
  {
    var row := VersionRow(now, now, version + 1, info, 1, blockHash, []);
    assert VersionInsert(t, uuid, version, hash, info, blockHash, now) == InsertVersion(t, i, row);
    if VersionAt(t, uuid, version + 1).None? {
      FindStackUnique(t, i);
      var t1 := t[i := t[i].(versions := t[i].versions + [row])];
      assert InsertVersion(t, i, row) == Success(t1);
      VersionBlockAfterInsert(t, uuid, i, row, data, blockHash, now);
    } else {
      FindStackUnique(t, i);
      assert FindVersion(t[i].versions, version + 1).Some?;
    }
  }

  /** Block 0 of a freshly inserted version lands in that version. */
  lemma VersionBlockAfterInsert<H>(t: Tables<H>, uuid: Uuid, i: nat, row: VersionRow<H>,
                                   data: Bytes, blockHash: H, now: Timestamp)
    requires i < |t| && t[i].uuid == uuid && FindStack(t, uuid) == Some(i) && row.blocks == []
    ensures var t1 := t[i := t[i].(versions := t[i].versions + [row])];
            VersionBlockInsert(t1, uuid, row.version - 1, data, blockHash, now) ==
              Success(t[i := t[i].(versions := t[i].versions + [row.(blocks := [BlockRow(now, 0, data, blockHash)])])])
  {
    var vs := t[i].versions;
    var vs1 := vs + [row];
    var t1 := t[i := t[i].(versions := vs1)];
    assert FindStack(t1, uuid) == Some(i) by {
      FindStackKeys(t, t1, uuid);
    }
    assert FindVersion(vs1, row.version) == Some(|vs|);
    assert VersionAt(t1, uuid, row.version) == Some((i, |vs|));
    var b := BlockRow(now, 0, data, blockHash);
    assert t1[i].versions[|vs|] == row;
    assert FindBlock(row.blocks, 0) == None;
    assert row.blocks + [b] == [b];
    var row' := row.(blocks := [b]);
    assert InsertBlock(t1, i, |vs|, b) == Success(WithVersion(t1, i, |vs|, row'));
    assert vs1[|vs| := row'] == vs + [row'];
    assert WithVersion(t1, i, |vs|, row') == t[i := t[i].(versions := vs + [row'])];
  }

  /** The one-step version write keeps the invariant. */
  lemma OpenVersionWellformed<H>(t: Tables<H>, uuid: Uuid, version: int, hash: H, info: Bytes,
                                     data: Bytes, blockHash: H, now: Timestamp)
    requires Wellformed(t)
    requires OpenVersion(t, uuid, version, hash, info, data, blockHash, now).Success?
    ensures Wellformed(OpenVersion(t, uuid, version, hash, info, data, blockHash, now).value)
  {
    match ClaimedVersion(t, uuid, version, hash)
    case None =>
    case Some((i, j)) =>
      var vs := t[i].versions;
      assert StackWellformed(t[i]);
      assert j == |vs| - 1 by {
        VersionAtWellformed(t, i, version);
        VersionAtWellformed(t, i, version + 1);
      }
      OpenVersionAppends(t, i, version, hash, info, data, blockHash, now);
      AppendVersionWellformed(t, i, VersionRow(now, now, version + 1, info, 1, blockHash,
                                               [BlockRow(now, 0, data, blockHash)]));
  }

  /** Appending a contiguous version row numbered one past a stack's last keeps the invariant. */
  lemma AppendVersionWellformed<H>(t: Tables<H>, i: nat, row: VersionRow<H>)
    requires Wellformed(t) && i < |t|
    requires row.version == t[i].versions[|t[i].versions| - 1].version + 1 && BlocksContiguous(row)
    ensures Wellformed(t[i := t[i].(versions := t[i].versions + [row])])
  {
    var vs := t[i].versions;
    var t' := t[i := t[i].(versions := vs + [row])];
    assert StackWellformed(t[i]);
    assert StackWellformed(t'[i]) by {
      forall k | 0 <= k < |t'[i].versions| ensures BlocksContiguous(t'[i].versions[k]) {
        if k < |vs| { assert t'[i].versions[k] == vs[k]; }
      }
    }
    forall k | 0 <= k < |t'| ensures StackWellformed(t'[k]) {
      if k != i { assert t'[k] == t[k]; }
    }
  }

  /**
   * Under the invariant a version write applies exactly when the claim names
   * the stack's latest version with its hash; a claim on a superseded version
   * with its hash fails on the version key.
   */
  lemma OpenVersionOutcome<H>(t: Tables<H>, i: nat, version: int, hash: H, info: Bytes,
                                  data: Bytes, blockHash: H, now: Timestamp)
    requires Wellformed(t) && i < |t|
    ensures var vs := t[i].versions;
            var r := OpenVersion(t, t[i].uuid, version, hash, info, data, blockHash, now);
            (r.Success? && r.value != t <==>
               version == vs[|vs| - 1].version && hash == vs[|vs| - 1].hash) &&
            (r.Success? && r.value != t ==>
               StackSelect(r.value, t[i].uuid) == Some(Stack(t[i].uuid, now, now, version + 1, 1, Some(blockHash))))
  {
    var vs := t[i].versions;
    if version == vs[|vs| - 1].version && hash == vs[|vs| - 1].hash {
      OpenVersionOpens(t, i, version, hash, info, data, blockHash, now);
    } else {
      OpenVersionKeeps(t, i, version, hash, info, data, blockHash, now);
    }
  }

  /** A version write that does not claim the latest version with its hash changes nothing, if it succeeds at all. */
  lemma OpenVersionKeeps<H>(t: Tables<H>, i: nat, version: int, hash: H, info: Bytes,
                            data: Bytes, blockHash: H, now: Timestamp)
    requires Wellformed(t) && i < |t|
    requires var vs := t[i].versions; !(version == vs[|vs| - 1].version && hash == vs[|vs| - 1].hash)
    ensures var r := OpenVersion(t, t[i].uuid, version, hash, info, data, blockHash, now);
            r.Success? ==> r.value == t
  {
    assert StackWellformed(t[i]);
    VersionAtWellformed(t, i, version);
    VersionAtWellformed(t, i, version + 1);
  }

  /** A version write claiming the latest version with its hash appends version + 1, which STACK_SELECT then reads. */
  lemma OpenVersionOpens<H>(t: Tables<H>, i: nat, version: int, hash: H, info: Bytes,
                            data: Bytes, blockHash: H, now: Timestamp)
    requires Wellformed(t) && i < |t|
    requires version == t[i].versions[|t[i].versions| - 1].version && hash == t[i].versions[|t[i].versions| - 1].hash
    ensures var r := OpenVersion(t, t[i].uuid, version, hash, info, data, blockHash, now);
            r.Success? && r.value != t &&
            StackSelect(r.value, t[i].uuid) == Some(Stack(t[i].uuid, now, now, version + 1, 1, Some(blockHash)))
  {
    var row := VersionRow(now, now, version + 1, info, 1, blockHash, [BlockRow(now, 0, data, blockHash)]);
    var t' := t[i := t[i].(versions := t[i].versions + [row])];
    OpenVersionAppends(t, i, version, hash, info, data, blockHash, now);
    assert |t'[i].versions| != |t[i].versions|;
    OpenVersionWellformed(t, t[i].uuid, version, hash, info, data, blockHash, now);
    StackSelectLatest(t', i);
  }

  lemma OpenVersionAppends<H>(t: Tables<H>, i: nat, version: int, hash: H, info: Bytes,
                              data: Bytes, blockHash: H, now: Timestamp)
    requires Wellformed(t) && i < |t|
    requires version == t[i].versions[|t[i].versions| - 1].version && hash == t[i].versions[|t[i].versions| - 1].hash
    ensures OpenVersion(t, t[i].uuid, version, hash, info, data, blockHash, now) ==
            Success(t[i := t[i].(versions := t[i].versions +
                                   [VersionRow(now, now, version + 1, info, 1, blockHash,
                                               [BlockRow(now, 0, data, blockHash)])])])
  {
    var vs := t[i].versions;
    assert StackWellformed(t[i]);
    VersionAtWellformed(t, i, version);
    VersionAtWellformed(t, i, version + 1);
    assert ClaimedVersion(t, t[i].uuid, version, hash) == Some((i, |vs| - 1));
  }

  /** Under the invariant STACK_SELECT reads the stack's last version row. */
  lemma StackSelectLatest<H>(t: Tables<H>, i: nat)
    requires Wellformed(t) && i < |t|
    ensures StackSelect(t, t[i].uuid) == Some(Project(t[i].uuid, t[i].versions[|t[i].versions| - 1]))
  {
    FindStackUnique(t, i);
    assert StackWellformed(t[i]);
    MaxIsLast(t[i].versions);
  }

  // ---------------------------------------------------------------------
  // Vacuum

  /** The stack has versions, one of them numbered `version`, below its highest number. */
  ghost predicate Stale<H>(s: StackRow<H>, version: int)
  {
    |s.versions| > 0 &&
    (exists k :: 0 <= k < |s.versions| && s.versions[k].version == version) &&
    version < s.versions[MaxVersionIndex(s.versions)].version
  }

  function StaleVersions<H>(uuid: Uuid, vs: seq<VersionRow<H>>, max: int): (r: seq<(Uuid, int)>)
    ensures forall p :: p in r <==>
              p.0 == uuid && p.1 < max && exists k :: 0 <= k < |vs| && vs[k].version == p.1
  {
    if |vs| == 0 then []
    else
      var r0 := StaleVersions(uuid, vs[..|vs| - 1], max);
      assert forall k :: 0 <= k < |vs| - 1 ==> vs[..|vs| - 1][k] == vs[k];
      r0 + if vs[|vs| - 1].version < max then [(uuid, vs[|vs| - 1].version)] else []
  }

  /**
   * VACUUM_SELECT: every version below its stack's highest number, as the
   * (uuid, version) pair that identifies its row.
   */
  function VacuumSelect<H>(t: Tables<H>): (r: seq<(Uuid, int)>)
    ensures forall p :: p in r <==> exists i :: 0 <= i < |t| && t[i].uuid == p.0 && Stale(t[i], p.1)
  {
    if |t| == 0 then []
    else
      var r0 := VacuumSelect(t[..|t| - 1]);
      assert forall i :: 0 <= i < |t| - 1 ==> t[..|t| - 1][i] == t[i];
      r0 + StaleOf(t[|t| - 1])
  }

  /** The selected pairs of one stack row. */
  function StaleOf<H>(s: StackRow<H>): (r: seq<(Uuid, int)>)
    ensures forall p :: p in r <==> p.0 == s.uuid && Stale(s, p.1)
  {
    if |s.versions| == 0 then []
    else StaleVersions(s.uuid, s.versions, s.versions[MaxVersionIndex(s.versions)].version)
  }

  /** The version rows of one stack without those numbered `version`, the rest in their order. */
  function DropVersion<H>(vs: seq<VersionRow<H>>, version: int): (r: seq<VersionRow<H>>)
    ensures |r| <= |vs|
  {
    if |vs| == 0 then []
    else DropVersion(vs[..|vs| - 1], version) +
         if vs[|vs| - 1].version == version then [] else [vs[|vs| - 1]]
  }

  /** Exactly the rows numbered `version` go; with none of them nothing changes. */
  lemma DropVersionRows<H>(vs: seq<VersionRow<H>>, version: int)
    ensures var r := DropVersion(vs, version);
            (forall k :: 0 <= k < |r| ==> r[k] in vs && r[k].version != version) &&
            (forall k :: 0 <= k < |vs| && vs[k].version != version ==> vs[k] in r) &&
            ((forall k :: 0 <= k < |vs| ==> vs[k].version != version) ==> r == vs)
  {
    DropVersionKept(vs, version);
    DropVersionDropped(vs, version);
    if forall k :: 0 <= k < |vs| ==> vs[k].version != version {
      DropVersionNone(vs, version);
    }
  }

  lemma {:induction false} DropVersionKept<H>(vs: seq<VersionRow<H>>, version: int)
    ensures forall k :: 0 <= k < |DropVersion(vs, version)| ==>
              DropVersion(vs, version)[k] in vs && DropVersion(vs, version)[k].version != version
  {
    if |vs| > 0 {
      var n := |vs| - 1;
      DropVersionKept(vs[..n], version);
      var r0 := DropVersion(vs[..n], version);
      forall x | x in r0 ensures x in vs {
        assert x in vs[..n];
      }
    }
  }

  lemma {:induction false} DropVersionDropped<H>(vs: seq<VersionRow<H>>, version: int)
    ensures forall k :: 0 <= k < |vs| && vs[k].version != version ==> vs[k] in DropVersion(vs, version)
  {
    if |vs| > 0 {
      var n := |vs| - 1;
      DropVersionDropped(vs[..n], version);
      forall k | 0 <= k < n && vs[k].version != version
        ensures vs[k] in DropVersion(vs[..n], version)
      {
        assert vs[k] == vs[..n][k];
      }
    }
  }

  lemma {:induction false} DropVersionNone<H>(vs: seq<VersionRow<H>>, version: int)
    requires forall k :: 0 <= k < |vs| ==> vs[k].version != version
    ensures DropVersion(vs, version) == vs
  {
    if |vs| > 0 {
      var n := |vs| - 1;
      DropVersionNone(vs[..n], version);
      assert vs[..n] + [vs[n]] == vs;
    }
  }

  /**
   * VERSION_DELETE: removes one version row of one stack; its block rows go
   * with it (ON DELETE CASCADE).
   */
  function VersionDelete<H>(t: Tables<H>, uuid: Uuid, version: int): (r: Tables<H>)
    ensures |r| == |t|
    ensures forall i :: 0 <= i < |t| ==> r[i].uuid == t[i].uuid
    ensures forall i :: 0 <= i < |t| && t[i].uuid != uuid ==> r[i] == t[i]
    ensures forall i :: 0 <= i < |t| && t[i].uuid == uuid ==>
              r[i].versions == DropVersion(t[i].versions, version)
  {
    seq(|t|, i requires 0 <= i < |t| =>
      if t[i].uuid == uuid then t[i].(versions := DropVersion(t[i].versions, version)) else t[i])
  }

  /** The version rows of stack `uuid` whose (uuid, version) pair is not listed in `gone`. */
  function Keep<H>(uuid: Uuid, vs: seq<VersionRow<H>>, gone: seq<(Uuid, int)>): seq<VersionRow<H>>
  {
    if |vs| == 0 then []
    else Keep(uuid, vs[..|vs| - 1], gone) +
         if (uuid, vs[|vs| - 1].version) in gone then [] else [vs[|vs| - 1]]
  }

  /** `t` after the versions listed in `gone` were deleted. */
  function Pruned<H>(t: Tables<H>, gone: seq<(Uuid, int)>): (r: Tables<H>)
    ensures |r| == |t|
  {
    seq(|t|, i requires 0 <= i < |t| => t[i].(versions := Keep(t[i].uuid, t[i].versions, gone)))
  }

  /** Every stack reduced to its highest-numbered version, whose blocks are untouched. */
  function KeepLatest<H>(t: Tables<H>): (r: Tables<H>)
    ensures |r| == |t|
  {
    seq(|t|, i requires 0 <= i < |t| =>
      if |t[i].versions| == 0 then t[i]
      else t[i].(versions := [t[i].versions[MaxVersionIndex(t[i].versions)]]))
  }

  lemma {:induction false} KeepNothing<H>(uuid: Uuid, vs: seq<VersionRow<H>>)
    ensures Keep(uuid, vs, []) == vs
  {
    if |vs| > 0 {
      var n := |vs| - 1;
      KeepNothing(uuid, vs[..n]);
      assert (uuid, vs[n].version) !in [];
      assert Keep(uuid, vs, []) == vs[..n] + [vs[n]];
      assert vs[..n] + [vs[n]] == vs;
    }
  }

  lemma {:induction false} KeepDrop<H>(uuid: Uuid, vs: seq<VersionRow<H>>, gone: seq<(Uuid, int)>, version: int)
    ensures DropVersion(Keep(uuid, vs, gone), version) == Keep(uuid, vs, gone + [(uuid, version)])
  {
    if |vs| > 0 {
      var last := vs[|vs| - 1];
      var front := Keep(uuid, vs[..|vs| - 1], gone);
      KeepDrop(uuid, vs[..|vs| - 1], gone, version);
      DropAppend(front, if (uuid, last.version) in gone then [] else [last], version);
    }
  }

  lemma {:induction false} DropAppend<H>(a: seq<VersionRow<H>>, b: seq<VersionRow<H>>, version: int)
    requires |b| <= 1
    ensures DropVersion(a + b, version) == DropVersion(a, version) + DropVersion(b, version)
  {
    if |b| == 1 {
      assert (a + b)[..|a + b| - 1] == a;
      assert b[..0] == [];
    } else {
      assert a + b == a;
    }
  }

  lemma {:induction false} KeepOther<H>(uuid: Uuid, vs: seq<VersionRow<H>>, gone: seq<(Uuid, int)>, other: Uuid, version: int)
    requires other != uuid
    ensures Keep(uuid, vs, gone + [(other, version)]) == Keep(uuid, vs, gone)
  {
    if |vs| > 0 {
      KeepOther(uuid, vs[..|vs| - 1], gone, other, version);
    }
  }

  /** Deleting one more version row extends the list of deleted versions by one. */
  lemma PrefixNext<T>(s: seq<T>, k: nat)
    requires k < |s|
    ensures s[..k + 1] == s[..k] + [s[k]]
  {
  }

  lemma PrefixAll<T>(s: seq<T>)
    ensures s[..|s|] == s
  {
  }

  lemma PruneStep<H>(t: Tables<H>, gone: seq<(Uuid, int)>, uuid: Uuid, version: int)
    ensures VersionDelete(Pruned(t, gone), uuid, version) == Pruned(t, gone + [(uuid, version)])
  {
    var a := VersionDelete(Pruned(t, gone), uuid, version);
    var b := Pruned(t, gone + [(uuid, version)]);
    forall i | 0 <= i < |t| ensures a[i] == b[i] {
      if t[i].uuid == uuid {
        KeepDrop(uuid, t[i].versions, gone, version);
      } else {
        KeepOther(t[i].uuid, t[i].versions, gone, uuid, version);
      }
    }
  }

  lemma PruneNothing<H>(t: Tables<H>)
    ensures Pruned(t, []) == t
  {
    forall i | 0 <= i < |t| ensures Pruned(t, [])[i] == t[i] {
      KeepNothing(t[i].uuid, t[i].versions);
    }
  }

  lemma {:induction false} KeepNone<H>(uuid: Uuid, vs: seq<VersionRow<H>>, gone: seq<(Uuid, int)>)
    requires forall k :: 0 <= k < |vs| ==> (uuid, vs[k].version) in gone
    ensures Keep(uuid, vs, gone) == []
  {
    if |vs| > 0 {
      KeepNone(uuid, vs[..|vs| - 1], gone);
    }
  }

  /** VACUUM_SELECT picks a version of a stack exactly when a later version of it exists. */
  lemma VacuumSelectStack<H>(t: Tables<H>, i: nat, k: nat)
    requires Wellformed(t) && i < |t| && k < |t[i].versions|
    ensures (t[i].uuid, t[i].versions[k].version) in VacuumSelect(t) <==> k < |t[i].versions| - 1
  {
    var vs := t[i].versions;
    var n := |vs| - 1;
    assert StackWellformed(t[i]);
    MaxIsLast(vs);
    assert vs[k].version == vs[0].version + k;
    assert vs[n].version == vs[0].version + n;
    if k < n {
      assert Stale(t[i], vs[k].version);
    } else {
      forall i' | 0 <= i' < |t| && t[i'].uuid == t[i].uuid ensures !Stale(t[i'], vs[k].version) {
        FindStackUnique(t, i);
        FindStackUnique(t, i');
      }
    }
  }

  lemma VacuumStack<H>(t: Tables<H>, i: nat)
    requires Wellformed(t) && i < |t|
    ensures Keep(t[i].uuid, t[i].versions, VacuumSelect(t)) == [t[i].versions[|t[i].versions| - 1]]
  {
    var vs := t[i].versions;
    var u := t[i].uuid;
    var sel := VacuumSelect(t);
    assert StackWellformed(t[i]);
    var n := |vs| - 1;
    forall k | 0 <= k < n ensures (u, vs[..n][k].version) in sel {
      VacuumSelectStack(t, i, k);
    }
    KeepNone(u, vs[..n], sel);
    VacuumSelectStack(t, i, n);
    PrefixNext(vs, n);
    PrefixAll(vs);
  }

  /**
   * The versions VACUUM_SELECT picks, once deleted, leave every stack with
   * exactly its highest-numbered version.
   */
  lemma VacuumKeepsLatest<H>(t: Tables<H>)
    requires Wellformed(t)
    ensures Pruned(t, VacuumSelect(t)) == KeepLatest(t)
  {
    var sel := VacuumSelect(t);
    var a := Pruned(t, sel);
    var b := KeepLatest(t);
    forall i | 0 <= i < |t| ensures a[i] == b[i] {
      VacuumStack(t, i);
      KeepLatestStack(t, i);
      PrunedAt(t, sel, i);
    }
    assert |a| == |b|;
  }

  lemma PrunedAt<H>(t: Tables<H>, gone: seq<(Uuid, int)>, i: nat)
    requires i < |t|
    ensures Pruned(t, gone)[i] == StackRow(t[i].uuid, Keep(t[i].uuid, t[i].versions, gone))
  {
  }

  /** Vacuuming keeps the invariant and every stack's latest version. */
  lemma KeepLatestWellformed<H>(t: Tables<H>)
    requires Wellformed(t)
    ensures Wellformed(KeepLatest(t))
    ensures forall i :: 0 <= i < |t| ==> StackSelect(KeepLatest(t), t[i].uuid) == StackSelect(t, t[i].uuid)
  {
    var t' := KeepLatest(t);
    forall i | 0 <= i < |t| ensures StackWellformed(t'[i]) && t'[i].uuid == t[i].uuid {
      KeepLatestStack(t, i);
    }
    assert Wellformed(t');
    forall i | 0 <= i < |t| ensures StackSelect(t', t[i].uuid) == StackSelect(t, t[i].uuid) {
      KeepLatestStack(t, i);
      StackSelectLatest(t, i);
      StackSelectLatest(t', i);
    }
  }

  lemma KeepLatestStack<H>(t: Tables<H>, i: nat)
    requires Wellformed(t) && i < |t|
    ensures KeepLatest(t)[i] == StackRow(t[i].uuid, [t[i].versions[|t[i].versions| - 1]])
    ensures StackWellformed(KeepLatest(t)[i])
  {
    assert StackWellformed(t[i]);
    MaxIsLast(t[i].versions);
    assert BlocksContiguous(t[i].versions[|t[i].versions| - 1]);
  }

  // ---------------------------------------------------------------------
  // Size reports

  datatype VersionSizeRow<H> = VersionSizeRow(uuid: Uuid, created: Timestamp, updated: Timestamp,
                                              version: int, height: int, hash: H, size: nat)

  datatype BlockSizeRow<H> = BlockSizeRow(version: int, created: Timestamp, index: int, hash: H, size: nat)

  /** sum(length(data)) over a version's blocks. */
  function DataSize<H>(bs: seq<BlockRow<H>>): nat
  {
    if |bs| == 0 then 0 else DataSize(bs[..|bs| - 1]) + |bs[|bs| - 1].data|
  }

  function VersionSize<H>(uuid: Uuid, v: VersionRow<H>): VersionSizeRow<H>
  {
    VersionSizeRow(uuid, v.created, v.updated, v.version, v.height, v.hash, DataSize(v.blocks))
  }

  function BlockSize<H>(version: int, b: BlockRow<H>): BlockSizeRow<H>
  {
    BlockSizeRow(version, b.created, b.index, b.hash, |b.data|)
  }

  function VersionSizes<H>(uuid: Uuid, vs: seq<VersionRow<H>>): seq<VersionSizeRow<H>>
  {
    if |vs| == 0 then []
    else
      var v := vs[|vs| - 1];
      VersionSizes(uuid, vs[..|vs| - 1]) + if |v.blocks| == 0 then [] else [VersionSize(uuid, v)]
  }

  /**
   * SIZE_SELECT: one row per version that has blocks (the inner join on
   * block_table), whose size is the total length of its blocks' data.
   */
  function SizeSelect<H>(t: Tables<H>): seq<VersionSizeRow<H>>
  {
    if |t| == 0 then []
    else SizeSelect(t[..|t| - 1]) + VersionSizes(t[|t| - 1].uuid, t[|t| - 1].versions)
  }

  function BlockSizes<H>(vs: seq<VersionRow<H>>): seq<BlockSizeRow<H>>
  {
    if |vs| == 0 then []
    else
      var v := vs[|vs| - 1];
      BlockSizes(vs[..|vs| - 1]) + seq(|v.blocks|, a requires 0 <= a < |v.blocks| => BlockSize(v.version, v.blocks[a]))
  }

  /** STACK_SIZE_SELECT: one row per block of the stack, sized by its data length. */
  function StackSizeSelect<H>(t: Tables<H>, uuid: Uuid): seq<BlockSizeRow<H>>
  {
    match FindStack(t, uuid)
    case None => []
    case Some(i) => BlockSizes(t[i].versions)
  }

  lemma {:induction false} VersionSizesRows<H>(uuid: Uuid, vs: seq<VersionRow<H>>)
    ensures var r := VersionSizes(uuid, vs);
            (forall n :: 0 <= n < |r| ==>
               exists k :: 0 <= k < |vs| && |vs[k].blocks| > 0 && r[n] == VersionSize(uuid, vs[k])) &&
            forall k :: 0 <= k < |vs| && |vs[k].blocks| > 0 ==> VersionSize(uuid, vs[k]) in r
  {
    if |vs| > 0 {
      var p := vs[..|vs| - 1];
      VersionSizesRows(uuid, p);
      var r := VersionSizes(uuid, vs);
      var r0 := VersionSizes(uuid, p);
      forall n | 0 <= n < |r|
        ensures exists k :: 0 <= k < |vs| && |vs[k].blocks| > 0 && r[n] == VersionSize(uuid, vs[k])
      {
        if n < |r0| {
          var k :| 0 <= k < |p| && |p[k].blocks| > 0 && r0[n] == VersionSize(uuid, p[k]);
          assert p[k] == vs[k] && r[n] == r0[n];
        } else {
          assert r[n] == VersionSize(uuid, vs[|vs| - 1]);
        }
      }
      forall k | 0 <= k < |vs| && |vs[k].blocks| > 0 ensures VersionSize(uuid, vs[k]) in r {
        if k < |p| {
          assert p[k] == vs[k];
          assert VersionSize(uuid, p[k]) in r0;
        }
      }
    }
  }

  /** `x` is the size row of some version, with blocks, of some stack in `t`. */
  ghost predicate IsVersionSizeOf<H>(t: Tables<H>, x: VersionSizeRow<H>)
  {
    exists i, k :: 0 <= i < |t| && 0 <= k < |t[i].versions| && |t[i].versions[k].blocks| > 0 &&
                   x == VersionSize(t[i].uuid, t[i].versions[k])
  }

  /** Every row SIZE_SELECT reports sizes a version that has blocks. */
  lemma {:induction false} SizeSelectSound<H>(t: Tables<H>)
    ensures forall x :: x in SizeSelect(t) ==> IsVersionSizeOf(t, x)
  {
    if |t| > 0 {
      var p := t[..|t| - 1];
      var last := t[|t| - 1];
      SizeSelectSound(p);
      VersionSizesRows(last.uuid, last.versions);
      var r0 := SizeSelect(p);
      var r1 := VersionSizes(last.uuid, last.versions);
      assert SizeSelect(t) == r0 + r1;
      forall x | x in SizeSelect(t) ensures IsVersionSizeOf(t, x) {
        if x in r0 {
          var i, k :| 0 <= i < |p| && 0 <= k < |p[i].versions| && |p[i].versions[k].blocks| > 0 &&
                      x == VersionSize(p[i].uuid, p[i].versions[k]);
          assert p[i] == t[i];
        } else {
          var n :| 0 <= n < |r1| && r1[n] == x;
          var k :| 0 <= k < |last.versions| && |last.versions[k].blocks| > 0 &&
                   r1[n] == VersionSize(last.uuid, last.versions[k]);
          assert 0 <= |t| - 1 < |t|;
        }
      }
    }
  }

  /** Every version that has blocks appears in SIZE_SELECT. */
  lemma {:induction false} SizeSelectComplete<H>(t: Tables<H>)
    ensures forall i, k :: 0 <= i < |t| && 0 <= k < |t[i].versions| && |t[i].versions[k].blocks| > 0 ==>
              VersionSize(t[i].uuid, t[i].versions[k]) in SizeSelect(t)
  {
    if |t| > 0 {
      var p := t[..|t| - 1];
      var last := t[|t| - 1];
      SizeSelectComplete(p);
      VersionSizesRows(last.uuid, last.versions);
      var r0 := SizeSelect(p);
      var r1 := VersionSizes(last.uuid, last.versions);
      assert SizeSelect(t) == r0 + r1;
      forall i, k | 0 <= i < |t| && 0 <= k < |t[i].versions| && |t[i].versions[k].blocks| > 0
        ensures VersionSize(t[i].uuid, t[i].versions[k]) in r0 + r1
      {
        if i < |p| {
          assert p[i] == t[i];
          assert VersionSize(p[i].uuid, p[i].versions[k]) in r0;
        } else {
          assert VersionSize(last.uuid, last.versions[k]) in r1;
        }
      }
    }
  }

  /**
   * SIZE_SELECT reports exactly the versions that have blocks, each sized by
   * the total length of its blocks' data.
   */
  lemma SizeSelectRows<H>(t: Tables<H>)
    ensures forall x :: x in SizeSelect(t) <==> IsVersionSizeOf(t, x)
  {
    SizeSelectSound(t);
    SizeSelectComplete(t);
    forall x | IsVersionSizeOf(t, x) ensures x in SizeSelect(t) {
      var i, k :| 0 <= i < |t| && 0 <= k < |t[i].versions| && |t[i].versions[k].blocks| > 0 &&
                  x == VersionSize(t[i].uuid, t[i].versions[k]);
    }
  }

  /** `x` is the size row of some block of some version in `vs`. */
  ghost predicate IsBlockSizeOf<H>(vs: seq<VersionRow<H>>, x: BlockSizeRow<H>)
  {
    exists k, a :: 0 <= k < |vs| && 0 <= a < |vs[k].blocks| && x == BlockSize(vs[k].version, vs[k].blocks[a])
  }

  lemma {:induction false} BlockSizesRows<H>(vs: seq<VersionRow<H>>)
    ensures forall n :: 0 <= n < |BlockSizes(vs)| ==> IsBlockSizeOf(vs, BlockSizes(vs)[n])
    ensures forall k, a :: 0 <= k < |vs| && 0 <= a < |vs[k].blocks| ==>
              BlockSize(vs[k].version, vs[k].blocks[a]) in BlockSizes(vs)
  {
    if |vs| > 0 {
      var p := vs[..|vs| - 1];
      var v := vs[|vs| - 1];
      BlockSizesRows(p);
      var r := BlockSizes(vs);
      var r0 := BlockSizes(p);
      var r1 := seq(|v.blocks|, a requires 0 <= a < |v.blocks| => BlockSize(v.version, v.blocks[a]));
      assert r == r0 + r1;
      forall n | 0 <= n < |r| ensures IsBlockSizeOf(vs, r[n]) {
        if n < |r0| {
          assert IsBlockSizeOf(p, r0[n]);
          var k, a :| 0 <= k < |p| && 0 <= a < |p[k].blocks| && r0[n] == BlockSize(p[k].version, p[k].blocks[a]);
          assert p[k] == vs[k] && r[n] == r0[n];
        } else {
          var k, a := |vs| - 1, n - |r0|;
          assert 0 <= a < |vs[k].blocks| && r[n] == r1[a] == BlockSize(vs[k].version, vs[k].blocks[a]);
        }
      }
      forall k, a | 0 <= k < |vs| && 0 <= a < |vs[k].blocks|
        ensures BlockSize(vs[k].version, vs[k].blocks[a]) in r
      {
        if k < |p| {
          assert p[k] == vs[k];
          assert BlockSize(p[k].version, p[k].blocks[a]) in r0;
        } else {
          assert r1[a] == BlockSize(v.version, v.blocks[a]);
          assert r[|r0| + a] == r1[a];
        }
      }
    }
  }

  /**
   * STACK_SIZE_SELECT reports exactly the blocks of the stack, each sized by
   * its data length; an unknown uuid yields no rows.
   */
  lemma StackSizeSelectRows<H>(t: Tables<H>, uuid: Uuid)
    requires UuidsUnique(t)
    ensures forall n :: 0 <= n < |StackSizeSelect(t, uuid)| ==>
              exists i :: 0 <= i < |t| && t[i].uuid == uuid && IsBlockSizeOf(t[i].versions, StackSizeSelect(t, uuid)[n])
    ensures forall i, k, a :: 0 <= i < |t| && t[i].uuid == uuid &&
                              0 <= k < |t[i].versions| && 0 <= a < |t[i].versions[k].blocks| ==>
              BlockSize(t[i].versions[k].version, t[i].versions[k].blocks[a]) in StackSizeSelect(t, uuid)
  {
    match FindStack(t, uuid)
    case None =>
      assert StackSizeSelect(t, uuid) == [];
    case Some(i) =>
      BlockSizesRows(t[i].versions);
      forall i' | 0 <= i' < |t| && t[i'].uuid == uuid ensures i' == i {
        FindStackUnique(t, i');
      }
  }

  // ---------------------------------------------------------------------
  // The latest version

  /** The last version row of stack `uuid`, when the stack exists and has versions. */
  function Latest<H>(t: Tables<H>, uuid: Uuid): (r: Option<VersionRow<H>>)
    ensures Wellformed(t) && r.Some? ==> BlocksContiguous(r.value) && r.value.version >= 1
  {
    LatestShape(t, uuid);
    match FindStack(t, uuid)
    case None => None
    case Some(i) => if |t[i].versions| == 0 then None else Some(t[i].versions[|t[i].versions| - 1])
  }

  /**
   * Under the invariant STACK_SELECT (highest version number) reads the last
   * version row, and finds one exactly when the stack exists.
   */
  lemma StackSelectIsLatest<H>(t: Tables<H>, uuid: Uuid)
    requires Wellformed(t)
    ensures StackSelect(t, uuid) == match Latest(t, uuid)
                                    case None => None
                                    case Some(v) => Some(Project(uuid, v))
    ensures Latest(t, uuid).Some? <==> exists i :: 0 <= i < |t| && t[i].uuid == uuid
  {
    match FindStack(t, uuid)
    case None =>
    case Some(i) =>
      StackSelectLatest(t, i);
      assert StackWellformed(t[i]);
  }

  /** Under the invariant BLOCK_SELECT finds a block exactly below the version's height. */
  lemma BlockSelectByVersion<H>(t: Tables<H>, uuid: Uuid, version: int, index: int)
    requires Wellformed(t)
    ensures BlockSelect(t, uuid, version, index) ==
              match VersionAt(t, uuid, version)
              case None => None
              case Some((i, j)) =>
                if 0 <= index < t[i].versions[j].height then Some(IntoBlock(t[i].versions[j].blocks[index]))
                else None
  {
    match VersionAt(t, uuid, version)
    case None =>
    case Some((i, j)) =>
      BlockSelectWellformed(t, i, j, index);
      assert StackWellformed(t[i]);
      assert t[i].versions[j].version == t[i].versions[0].version + j;
      VersionAtWellformed(t, i, version);
  }

  lemma LatestShape<H>(t: Tables<H>, uuid: Uuid)
    ensures Wellformed(t) && FindStack(t, uuid).Some? && |t[FindStack(t, uuid).value].versions| > 0 ==>
              var vs := t[FindStack(t, uuid).value].versions;
              BlocksContiguous(vs[|vs| - 1]) && vs[|vs| - 1].version >= 1
  {
    if Wellformed(t) && FindStack(t, uuid).Some? {
      var i := FindStack(t, uuid).value;
      assert StackWellformed(t[i]);
      var vs := t[i].versions;
      if |vs| > 0 {
        assert vs[|vs| - 1].version == vs[0].version + |vs| - 1;
      }
    }
  }

  /** The projection of the latest version: what `read` answers. */
  function LatestStack<H>(t: Tables<H>, uuid: Uuid): (r: Option<Stack<H>>)
    ensures r.Some? <==> Latest(t, uuid).Some?
    ensures r.Some? ==> r.value == Project(uuid, Latest(t, uuid).value)
  {
    match Latest(t, uuid)
    case None => None
    case Some(v) => Some(Project(uuid, v))
  }

  /** Under the invariant the latest version sits at the last position of its stack row. */
  lemma LatestAt<H>(t: Tables<H>, uuid: Uuid)
    requires Wellformed(t) && Latest(t, uuid).Some?
    ensures FindStack(t, uuid).Some?
    ensures var i := FindStack(t, uuid).value;
            |t[i].versions| > 0 &&
            Latest(t, uuid) == Some(t[i].versions[|t[i].versions| - 1]) &&
            VersionAt(t, uuid, Latest(t, uuid).value.version) == Some((i, |t[i].versions| - 1))
  {
    var i := FindStack(t, uuid).value;
    var vs := t[i].versions;
    assert StackWellformed(t[i]);
    assert vs[|vs| - 1].version == vs[0].version + |vs| - 1;
    VersionAtWellformed(t, i, vs[|vs| - 1].version);
  }
}

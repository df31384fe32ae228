/**
 * The HTTP client, `Client`: every call posts one request to the server and
 * accepts only the response kind it expects, throwing any other response.
 * `sync` walks a cursor towards the server's latest (version, height), one
 * response at a time, handing each block or version to a callback and
 * asking a cancellation hook before every request.
 *
 * The endpoint stands for the server itself (`server`); the transport is not
 * modelled.  The callbacks are recorded as an event log.  The cancellation
 * hook is the set `cancels` of the points at which it answers true: it is
 * asked once before the first request and again after every handled
 * response, and `k in cancels` when it answers true with `k` responses
 * handled.
 */
module Client {
  import opened Wrappers
  import opened Types
  import opened Sql
  import opened Store
  import opened Api

  /** A callback the sync loop ran: `fn.block(cursor, block)` or `fn.version(cursor, info, block)`. */
  datatype Event<H> =
    | BlockEvent(cursor: Stack<H>, block: Block<H>)
    | VersionEvent(cursor: Stack<H>, info: Bytes, block: Block<H>)

  const Cancelled := "cancelled"

  /** The acceptance rule of every single-request call: resolve on the expected kind, throw anything else. */
  function Accept<H>(tag: string, res: Response<H>): (r: Result<Response<H>, Response<H>>)
    ensures r.Success? <==> Tag(res) == tag
    ensures r == Success(res) || r == Failure(res)
  {
    if Tag(res) == tag then Success(res) else Failure(res)
  }

  /** No server error has the text of a cancelled sync. */
  lemma NoErrorCancelled()
    ensures NotHandled != Cancelled
    ensures forall e: Error :: Message(e) != Cancelled
  {
    assert NotHandled[0] != Cancelled[0];
    forall e: Error ensures Message(e) != Cancelled {
      NotCancelled(e);
    }
  }

  lemma NotCancelled(e: Error)
    ensures Message(e) != Cancelled
  {
    assert Cancelled[0] == 'c';
    match e
    case StackNotFound =>
    case BlockNotFound =>
    case UniqueViolation(_) => assert Message(e)[0] == 'S';
    case NotNullViolation(column) =>
      var prefix := "SqliteError: NOT NULL constraint failed: ";
      assert Message(e) == prefix + column;
      assert (prefix + column)[0] == prefix[0] == 'S';
    case TypeError(_) => assert Message(e)[0] == 'T';
  }

  /** The first block index a sync from cursor `c` receives of the latest version `v`. */
  function Start<H>(v: VersionRow<H>, c: Stack<H>): int
  {
    if c.version == v.version then c.height else 0
  }

  /** How many more block or version responses a cursor `c` can draw before it is in step with `v`. */
  function Distance<H>(v: VersionRow<H>, c: Stack<H>): nat
    requires v.height >= 1
  {
    if c.version == v.version && 0 <= c.height <= v.height then v.height - c.height else v.height
  }

  /** A cursor the server can bring in step: another version, or a height within the latest. */
  predicate InReach<H>(v: VersionRow<H>, c: Stack<H>)
  {
    c.version != v.version || 0 <= c.height <= v.height
  }

  /**
   * An event carries a block of the latest version `v`, and the cursor the
   * callback saw stands right after that block; a version event carries
   * `v`'s info and block 0, and its cursor takes block 0's hash.
   */
  ghost predicate Delivered<H>(v: VersionRow<H>, e: Event<H>)
  {
    0 <= e.block.index < |v.blocks| && e.block == IntoBlock(v.blocks[e.block.index]) &&
    e.cursor.version == v.version && e.cursor.height == e.block.index + 1 &&
    e.cursor.updated == e.block.created &&
    (e.VersionEvent? ==> e.block.index == 0 && e.info == v.info && e.cursor.hash == Some(e.block.hash))
  }

  /**
   * Event `n` of a replay from `stack`: it names the stack, it delivers
   * block `Start + n` of `v`, and only event 0 may be a version event.
   */
  ghost predicate EventAt<H>(v: VersionRow<H>, stack: Stack<H>, n: nat, e: Event<H>)
  {
    e.cursor.uuid == stack.uuid && (n > 0 ==> e.BlockEvent?) &&
    Delivered(v, e) && e.block.index == Start(v, stack) + n
  }

  /** Every event of `events` is the one `EventAt` describes for its position. */
  ghost predicate Replays<H>(v: VersionRow<H>, stack: Stack<H>, events: seq<Event<H>>)
    decreases |events|
  {
    events == [] ||
    (Replays(v, stack, events[..|events| - 1]) && EventAt(v, stack, |events| - 1, events[|events| - 1]))
  }

  lemma {:induction false} ReplaysAppend<H>(v: VersionRow<H>, stack: Stack<H>, events: seq<Event<H>>, e: Event<H>)
    requires Replays(v, stack, events) && EventAt(v, stack, |events|, e)
    ensures Replays(v, stack, events + [e])
  {
    assert (events + [e])[..|events|] == events;
  }

  lemma {:induction false} ReplaysMeans<H>(v: VersionRow<H>, stack: Stack<H>, events: seq<Event<H>>)
    requires Replays(v, stack, events)
    ensures forall n :: 0 <= n < |events| ==> EventAt(v, stack, n, events[n])
    decreases |events|
  {
    if events != [] {
      var prefix := events[..|events| - 1];
      ReplaysMeans(v, stack, prefix);
      forall n | 0 <= n < |events| ensures EventAt(v, stack, n, events[n]) {
        if n < |prefix| {
          assert events[n] == prefix[n];
        }
      }
    }
  }

  /**
   * What the sync loop keeps while it runs against the latest version `v`:
   * the events so far replay `v`'s blocks in order from `Start(v, stack)`,
   * the cursor is the one the last callback saw, and what is left to draw
   * fits within `v`'s height.
   */
  ghost predicate Replaying<H>(v: VersionRow<H>, stack: Stack<H>, cursor: Stack<H>, events: seq<Event<H>>)
  {
    BlocksContiguous(v) &&
    cursor.uuid == stack.uuid &&
    (|events| == 0 ==> cursor == stack) &&
    (|events| > 0 ==>
       cursor == events[|events| - 1].cursor && cursor.version == v.version &&
       cursor.height == Start(v, stack) + |events| && 1 <= cursor.height <= v.height) &&
    |events| + Distance(v, cursor) <= v.height &&
    Replays(v, stack, events)
  }

  /** A block response at the cursor's height moves the replay one block on and brings it nearer. */
  lemma {:induction false} BlockStepReplays<H>(v: VersionRow<H>, stack: Stack<H>, cursor: Stack<H>, events: seq<Event<H>>)
    requires Replaying(v, stack, cursor, events)
    requires cursor.version == v.version && 0 <= cursor.height < v.height
    ensures var b := IntoBlock(v.blocks[cursor.height]);
            var c := cursor.(updated := b.created, height := cursor.height + 1);
            Replaying(v, stack, c, events + [BlockEvent(c, b)]) &&
            Distance(v, c) < Distance(v, cursor)
  {
    var b := IntoBlock(v.blocks[cursor.height]);
    var c := cursor.(updated := b.created, height := cursor.height + 1);
    assert b.index == cursor.height;
    assert cursor.height == Start(v, stack) + |events| by {
      if |events| == 0 {
        assert cursor == stack;
      }
    }
    assert EventAt(v, stack, |events|, BlockEvent(c, b));
    ReplaysAppend(v, stack, events, BlockEvent(c, b));
  }

  /** A version response, which only a cursor on another version draws, starts the replay at block 0. */
  lemma {:induction false} VersionStepReplays<H>(v: VersionRow<H>, uuid: Uuid, stack: Stack<H>, cursor: Stack<H>, events: seq<Event<H>>)
    requires Replaying(v, stack, cursor, events)
    requires cursor.version != v.version
    ensures var b := IntoBlock(v.blocks[0]);
            var c := cursor.(updated := b.created, version := Project(uuid, v).version, height := 1, hash := Some(b.hash));
            events == [] && cursor == stack &&
            Replaying(v, stack, c, events + [VersionEvent(c, v.info, b)]) &&
            Distance(v, c) < Distance(v, cursor)
  {
    assert |events| == 0;
    var b := IntoBlock(v.blocks[0]);
    var c := cursor.(updated := b.created, version := v.version, height := 1, hash := Some(b.hash));
    assert EventAt(v, stack, 0, VersionEvent(c, v.info, b));
    ReplaysAppend(v, stack, events, VersionEvent(c, v.info, b));
  }

  /** The cancellation hook answered false at each of the first `n` times it was asked. */
  predicate Uncancelled(cancels: set<nat>, n: nat)
  {
    n == 0 || (n - 1 !in cancels && Uncancelled(cancels, n - 1))
  }

  lemma {:induction false} UncancelledMeans(cancels: set<nat>, n: nat)
    requires Uncancelled(cancels, n)
    ensures forall k :: 0 <= k < n ==> k !in cancels
  {
    if n > 0 {
      UncancelledMeans(cancels, n - 1);
    }
  }

  /**
   * What a replay that stopped at `cursor` has delivered: at most the
   * latest height of events, in order from `Start`, only the first of them
   * a version event, all of the remaining blocks when it stopped in step,
   * and a cursor the server could still bring in step when the start was.
   */
  lemma {:induction false} ReplayingMeans<H>(v: VersionRow<H>, stack: Stack<H>, cursor: Stack<H>, events: seq<Event<H>>,
                                             synced: bool)
    requires Replaying(v, stack, cursor, events)
    requires synced ==> cursor.version == v.version && cursor.height == v.height
    ensures |events| <= v.height
    ensures forall n :: 0 <= n < |events| ==> events[n].cursor.uuid == stack.uuid
    ensures forall n :: 0 < n < |events| ==> events[n].BlockEvent?
    ensures forall n :: 0 <= n < |events| ==> Delivered(v, events[n]) && events[n].block.index == Start(v, stack) + n
    ensures synced ==> |events| == v.height - Start(v, stack)
    ensures InReach(v, stack) ==> InReach(v, cursor)
  {
    ReplaysMeans(v, stack, events);
    if synced && |events| == 0 {
      assert cursor == stack;
    }
  }

  class Client<H(==)> {
    const server: Api<H>

    constructor (server: Api<H>)
      ensures this.server == server
    {
      this.server := server;
    }

    /**
     * create: resolves only on `response.create`.  With the permission
     * granted, that is the new stack at version 1, height 1, sealed by the
     * digest of its block; a taken uuid is thrown back as the error response.
     */
    method Create(info: Bytes, block: Bytes, auth: Auth, uuid: Uuid, now: Timestamp)
      returns (r: Result<Response<H>, Response<H>>)
      requires server.Valid()
      modifies server.db
      ensures server.Valid()
      ensures r.Success? ==> IsResponseCreate(r.value)
      ensures r.Failure? ==> !IsResponseCreate(r.error)
      ensures !auth.create ==> r == Failure(ErrorResponse(NotHandled)) && server.db.tables == old(server.db.tables)
      ensures auth.create ==>
                var data := server.Payload(block);
                match NewStack(old(server.db.tables), uuid, info, data, server.scheme.leaf(data), now)
                case Failure(e) =>
                  r == Failure(ErrorResponse(Message(e))) && server.db.tables == old(server.db.tables)
                case Success(t) =>
                  server.db.tables == t &&
                  r == Success(CreateResponse(Stack(uuid, now, now, 1, 1, Some(server.scheme.leaf(data)))))
    {
      var body := Body(RequestCreateTag, None, Some(info), Some(block), None);
      RequestGuards(body);
      var res := server.HandleRequest(body, auth, uuid, now);
      ResponseGuards(res);
      r := Accept("response.create", res);
    }

    /**
     * block: resolves only on `response.sync`.  When the stack exists and
     * the permission is granted, it always resolves, with the server's
     * latest stack, whether or not the claim matched and the block was
     * written.
     */
    method Block(stack: Stack<H>, block: Bytes, auth: Auth, now: Timestamp)
      returns (r: Result<Response<H>, Response<H>>)
      requires server.Valid()
      modifies server.db
      ensures server.Valid()
      ensures r.Success? ==> IsResponseSync(r.value)
      ensures r.Failure? ==> !IsResponseSync(r.error)
      ensures var t0 := old(server.db.tables);
              var data := server.Payload(block);
              server.db.tables ==
                if auth.block(stack.uuid) && stack.hash.Some? && Latest(t0, stack.uuid).Some?
                then AppendBlock(t0, stack.uuid, stack.version, stack.height, stack.hash.value, data,
                                 server.scheme.leaf(data),
                                 server.scheme.chain(Latest(t0, stack.uuid).value.hash, server.scheme.leaf(data)), now)
                else t0
      ensures auth.block(stack.uuid) && stack.hash.Some? && Latest(old(server.db.tables), stack.uuid).Some? ==>
                r.Success? && LatestStack(server.db.tables, stack.uuid) == Some(r.value.stack)
      ensures !auth.block(stack.uuid) ==> r == Failure(ErrorResponse(NotHandled))
    {
      var body := Body(RequestBlockTag, Some(stack), None, Some(block), None);
      RequestGuards(body);
      var res := server.HandleRequest(body, auth, stack.uuid, now);
      ResponseGuards(res);
      r := Accept("response.sync", res);
    }

    /**
     * version: resolves only on `response.sync`.  With the permission
     * granted it resolves exactly when the version write commits and the
     * stack exists, with the server's latest stack.
     */
    method Version(stack: Stack<H>, info: Bytes, block: Bytes, auth: Auth, now: Timestamp)
      returns (r: Result<Response<H>, Response<H>>)
      requires server.Valid()
      modifies server.db
      ensures server.Valid()
      ensures r.Success? ==> IsResponseSync(r.value)
      ensures r.Failure? ==> !IsResponseSync(r.error)
      ensures auth.version(stack.uuid) && stack.hash.Some? ==>
                var t0 := old(server.db.tables);
                var data := server.Payload(block);
                var w := OpenVersion(t0, stack.uuid, stack.version, stack.hash.value, info, data,
                                     server.scheme.leaf(data), now);
                server.db.tables == (if w.Success? then w.value else t0) &&
                (r.Success? <==> w.Success? && LatestStack(w.value, stack.uuid).Some?) &&
                (r.Success? ==> LatestStack(w.value, stack.uuid) == Some(r.value.stack))
      ensures !auth.version(stack.uuid) ==>
                r == Failure(ErrorResponse(NotHandled)) && server.db.tables == old(server.db.tables)
    {
      var body := Body(RequestVersionTag, Some(stack), Some(info), Some(block), None);
      RequestGuards(body);
      var res := server.HandleRequest(body, auth, stack.uuid, now);
      ResponseGuards(res);
      r := Accept("response.sync", res);
    }

    /**
     * size: resolves only on `response.size`: with the read permission, the
     * size report of the stack given or of every stack.
     */
    method Size(stack: Option<Stack<H>>, auth: Auth) returns (r: Result<Response<H>, Response<H>>)
      requires server.Valid()
      modifies server.db
      ensures server.Valid() && server.db.tables == old(server.db.tables)
      ensures r.Success? ==> IsResponseSize(r.value)
      ensures r.Failure? ==> !IsResponseSize(r.error)
      ensures var u := if stack.Some? then Some(stack.value.uuid) else None;
              r == if auth.read(u) then Success(SizeResponse(server.db.Size(u)))
                   else Failure(ErrorResponse(NotHandled))
    {
      var body := Body(RequestSizeTag, stack, None, None, None);
      RequestGuards(body);
      // a size request does not use the fresh uuid or the clock
      var res := server.HandleRequest(body, auth, "", 0);
      ResponseGuards(res);
      r := Accept("response.size", res);
    }

    /**
     * read: resolves only on `response.block`: with the read permission,
     * version `version` of the stack and its block `index`, which exist
     * exactly for an index below that version's height.
     */
    method Read(uuid: Uuid, version: int, index: int, auth: Auth) returns (r: Result<Response<H>, Response<H>>)
      requires server.Valid()
      modifies server.db
      ensures server.Valid() && server.db.tables == old(server.db.tables)
      ensures r.Success? ==> IsResponseBlock(r.value)
      ensures r.Failure? ==> !IsResponseBlock(r.error)
      ensures !auth.read(Some(uuid)) ==> r == Failure(ErrorResponse(NotHandled))
      ensures auth.read(Some(uuid)) ==>
                r == match server.HandleRead(uuid, version, index)
                     case Success(res) => Success(res)
                     case Failure(e) => Failure(ErrorResponse(Message(e)))
    {
      // the request names the stack by uuid and version only
      var body := Body(RequestReadTag, Some(Stack(uuid, 0, 0, version, 0, None)), None, None, Some(index));
      RequestGuards(body);
      var res := server.HandleRequest(body, auth, uuid, 0);
      ResponseGuards(res);
      r := Accept("response.block", res);
    }

    /** vacuum: resolves only on `response.vacuum`, after every stack was cut down to its latest version. */
    method Vacuum(auth: Auth) returns (r: Result<Response<H>, Response<H>>)
      requires server.Valid()
      modifies server.db
      ensures server.Valid()
      ensures r.Success? ==> IsResponseVacuum(r.value)
      ensures r.Failure? ==> !IsResponseVacuum(r.error)
      ensures auth.vacuum ==> r == Success(VacuumResponse) && server.db.tables == KeepLatest(old(server.db.tables))
      ensures !auth.vacuum ==> r == Failure(ErrorResponse(NotHandled)) && server.db.tables == old(server.db.tables)
    {
      var body := Body(RequestVacuumTag, None, None, None, None);
      RequestGuards(body);
      var res := server.HandleRequest(body, auth, "", 0);
      ResponseGuards(res);
      r := Accept("response.vacuum", res);
    }

    /** One sync request from `cursor`: refused, or the server's answer to it. */
    method Pull(cursor: Stack<H>, auth: Auth) returns (response: Response<H>)
      requires server.Valid()
      modifies server.db
      ensures server.Valid() && server.db.tables == old(server.db.tables)
      ensures !auth.read(Some(cursor.uuid)) ==> response == ErrorResponse(NotHandled)
      ensures auth.read(Some(cursor.uuid)) ==> response == Answer(server.HandleSync(cursor))
      ensures Latest(server.db.tables, cursor.uuid).None? ==> response.ErrorResponse?
      ensures Latest(server.db.tables, cursor.uuid).Some? ==>
                var v := Latest(server.db.tables, cursor.uuid).value;
                (response.SyncResponse? ==>
                   response.stack == Project(cursor.uuid, v) && cursor.version == v.version && cursor.height == v.height) &&
                (response.BlockResponse? ==>
                   cursor.version == v.version && 0 <= cursor.height < v.height &&
                   response.block == IntoBlock(v.blocks[cursor.height])) &&
                (response.VersionResponse? ==>
                   cursor.version != v.version && response.stack.version == v.version &&
                   response.info == v.info && response.block == IntoBlock(v.blocks[0])) &&
                (response.ErrorResponse? ==>
                   !auth.read(Some(cursor.uuid)) || (cursor.version == v.version && !(0 <= cursor.height <= v.height))) &&
                !response.CreateResponse? && !response.SizeResponse? && !response.VacuumResponse?
    {
      var body := Body(RequestSyncTag, Some(cursor), None, None, None);
      RequestGuards(body);
      // a sync request does not use the fresh uuid or the clock
      response := server.HandleRequest(body, auth, cursor.uuid, 0);
    }

    /**
     * One round of the sync loop: a request from `cursor`, then the cursor
     * moved and the callback recorded for a block or a version response.
     */
    method Round(stack: Stack<H>, cursor: Stack<H>, events: seq<Event<H>>, auth: Auth,
                 ghost latest: Option<VersionRow<H>>)
      returns (response: Response<H>, cursor': Stack<H>, events': seq<Event<H>>)
      requires server.Valid() && latest == Latest(server.db.tables, stack.uuid)
      requires cursor.uuid == stack.uuid
      requires latest.None? ==> events == [] && cursor == stack
      requires latest.Some? ==> Replaying(latest.value, stack, cursor, events)
      modifies server.db
      ensures server.Valid() && server.db.tables == old(server.db.tables)
      ensures cursor'.uuid == stack.uuid
      ensures latest.None? ==> response.ErrorResponse?
      ensures response.SyncResponse? ==>
                latest.Some? && cursor' == cursor && events' == events &&
                LatestStack(server.db.tables, stack.uuid) == Some(response.stack) &&
                cursor.version == latest.value.version && cursor.height == latest.value.height
      ensures response.ErrorResponse? ==>
                cursor' == cursor && events' == events && response.error != Cancelled &&
                (latest.Some? ==> !auth.read(Some(stack.uuid)) || !InReach(latest.value, cursor))
      ensures response.BlockResponse? || response.VersionResponse? ==>
                latest.Some? && |events'| == |events| + 1 &&
                Replaying(latest.value, stack, cursor', events') &&
                Distance(latest.value, cursor') < Distance(latest.value, cursor)
      ensures response.SyncResponse? || response.ErrorResponse? || response.BlockResponse? || response.VersionResponse?
    {
      response := Pull(cursor, auth);
      ResponseGuards(response);
      NoErrorCancelled();
      cursor', events' := cursor, events;
      if IsResponseBlock(response) {
        BlockStepReplays(latest.value, stack, cursor, events);
        cursor' := cursor.(updated := response.block.created, height := cursor.height + 1);
        events' := events + [BlockEvent(cursor', response.block)];
      }
      if IsResponseVersion(response) {
        VersionStepReplays(latest.value, stack.uuid, stack, cursor, events);
        cursor' := cursor.(updated := response.block.created, version := response.stack.version,
                           height := 1, hash := Some(response.block.hash));
        events' := events + [VersionEvent(cursor', response.info, response.block)];
      }
    }

    /**
     * sync: posts sync requests from the cursor `stack` until the server
     * answers `response.sync`, which it returns; a block response moves the
     * cursor one block up, a version response moves it to block 0 of the
     * latest version; an error response is thrown; a cancellation throws
     * "cancelled".  Against the fixed server state, the loop replays the
     * latest version's blocks in order from `Start`, draws at most its
     * height of them, and comes into step unless cancelled, refused or
     * given a height beyond the latest.
     */
    method Sync(stack: Stack<H>, cancels: set<nat>, auth: Auth)
      returns (r: Result<Response<H>, Response<H>>, events: seq<Event<H>>)
      requires server.Valid()
      modifies server.db
      ensures server.Valid() && server.db.tables == old(server.db.tables)
      ensures r.Success? ==> r.value.SyncResponse? && LatestStack(server.db.tables, stack.uuid) == Some(r.value.stack)
      ensures r.Failure? ==> r.error.ErrorResponse?
      ensures |events| in cancels <==> r == Failure(ErrorResponse(Cancelled))
      ensures forall k :: 0 <= k < |events| ==> k !in cancels
      ensures 0 in cancels ==> events == []
      ensures forall n :: 0 <= n < |events| ==> events[n].cursor.uuid == stack.uuid
      ensures forall n :: 0 < n < |events| ==> events[n].BlockEvent?
      ensures Latest(server.db.tables, stack.uuid).None? ==> events == [] && r.Failure?
      ensures Latest(server.db.tables, stack.uuid).Some? ==>
                var v := Latest(server.db.tables, stack.uuid).value;
                |events| <= v.height &&
                (forall n :: 0 <= n < |events| ==>
                   Delivered(v, events[n]) && events[n].block.index == Start(v, stack) + n) &&
                (r.Success? ==> |events| == v.height - Start(v, stack))
      ensures Latest(server.db.tables, stack.uuid).Some? &&
              auth.read(Some(stack.uuid)) && InReach(Latest(server.db.tables, stack.uuid).value, stack) &&
              (forall k :: 0 <= k <= Latest(server.db.tables, stack.uuid).value.height ==> k !in cancels) ==>
                r.Success?
    {
      var cursor;
      r, events, cursor := Walk(stack, cancels, auth);
      UncancelledMeans(cancels, |events|);
      var latest := Latest(server.db.tables, stack.uuid);
      if latest.Some? {
        ReplayingMeans(latest.value, stack, cursor, events, r.Success?);
      }
    }

    /**
     * The loop of `sync`, stated against the invariant it keeps: `cursor` is
     * the stack the loop holds when it stops.
     */
    method Walk(stack: Stack<H>, cancels: set<nat>, auth: Auth)
      returns (r: Result<Response<H>, Response<H>>, events: seq<Event<H>>, cursor: Stack<H>)
      requires server.Valid()
      modifies server.db
      ensures server.Valid() && server.db.tables == old(server.db.tables)
      ensures r.Success? ==> r.value.SyncResponse? && LatestStack(server.db.tables, stack.uuid) == Some(r.value.stack)
      ensures r.Failure? ==> r.error.ErrorResponse?
      ensures |events| in cancels <==> r == Failure(ErrorResponse(Cancelled))
      ensures Uncancelled(cancels, |events|)
      ensures cursor.uuid == stack.uuid
      ensures Latest(server.db.tables, stack.uuid).None? ==> events == [] && cursor == stack && r.Failure?
      ensures Latest(server.db.tables, stack.uuid).Some? ==>
                var v := Latest(server.db.tables, stack.uuid).value;
                Replaying(v, stack, cursor, events) &&
                (r.Success? ==> cursor.version == v.version && cursor.height == v.height) &&
                (r.Failure? && |events| !in cancels ==> !auth.read(Some(stack.uuid)) || !InReach(v, cursor))
    {
      events := [];
      var isCancelled := 0 in cancels;
      cursor := stack;
      ghost var latest := Latest(server.db.tables, stack.uuid);
      while !isCancelled
        invariant server.Valid() && server.db.tables == old(server.db.tables)
        invariant isCancelled == (|events| in cancels)
        invariant Uncancelled(cancels, |events|)
        invariant cursor.uuid == stack.uuid
        invariant latest.None? ==> events == [] && cursor == stack
        invariant latest.Some? ==> Replaying(latest.value, stack, cursor, events)
        decreases if latest.Some? then Distance(latest.value, cursor) else 0
      {
        var response;
        response, cursor, events := Round(stack, cursor, events, auth, latest);
        if IsResponseSync(response) {
          return Success(response), events, cursor;
        }
        if IsResponseError(response) {
          return Failure(response), events, cursor;
        }
        isCancelled := |events| in cancels;
      }
      r := Failure(ErrorResponse(Cancelled));
    }
  }
}

# bytesync storage and synchronisation core, modelled in Dafny

bytesync keeps versioned, append-only *stacks* of opaque (encrypted) blocks
on a server and keeps clients in step with them. A stack is a sequence of
*versions*. Each version holds blocks at indices `0 .. height-1` and a
*hash* that chains the digests of those blocks. A client writes a block or
opens a new version by claiming the stack's current `(version, height,
hash)`. The claim acts as an optimistic fencing token: the write applies
only when the claim matches a stored row. A client catches up by sending
its cursor. The server answers with exactly one of: "in step", "the next
block", or "the latest version's info and its block 0".

The model has one module per part of the core:

- `Types` (`types.dfy`) holds the wire vocabulary (`src/types.ts`): stacks,
  blocks, size reports, request bodies, responses, the `is*` guards, and
  the log formatters `formatString`, `formatStack` and `formatSize`.
- `HashChain` (`hashchain.dfy`) holds the hash chain. SHA-256 is a
  function parameter. `CommonScheme` chains raw digests, as
  `src/common/server/api.ts` does. `LegacyScheme` chains hex strings, as
  `src/server/api.ts` does.
- `Sql` (`sql.dfy`) holds the three tables of `src/server/sql.ts` as one
  value: stack rows, holding version rows, holding block rows. Every SQL
  statement is a function from the tables before it to the tables after
  it, or to the UNIQUE violation it raises. Each transaction is also
  given as one step, and a lemma proves the statements add up to it. The
  store invariant is `Wellformed`: uuids are unique, versions are numbered
  consecutively from at least 1, and a version holds exactly the blocks
  `0 .. height-1`.
- `Store` (`db.dfy`) is the class `Db`, which owns the tables
  (`src/common/server/db.ts`). Its write methods run the statements in
  order and roll back on a raise. Its reads are functions. The legacy
  `src/server/db.ts` is the same class with two differences. Its `read`
  does not check for a missing stack (`LegacyRead`). Its write
  transactions return the selected row unchecked (`LegacySelected`): on a
  missing stack they commit and return `undefined`, where the current
  store raises and rolls back. Both leave the same tables
  (`MissingStackWrites`).
- `Api` (`api.dfy`) is the class `Api`, the request handler
  (`src/common/server/api.ts`, and `src/server/api.ts` as `Variant.Legacy`).
  `HandleSync` is the three-way reconciliation. `HandleRequest` dispatches
  on the request tag, checks the permission, calls the store and answers.
  Every raised error becomes `response.error`. `Api.Valid` adds the hash
  chain invariant `ChainIntact`: every block row carries the digest of its
  data, and each stack's latest version hash is the chain over its blocks.
- `Client` (`client.dfy`) is the class `Client` (`src/client/axios.ts`).
  Its server is an `Api` object, called directly. `Sync` is the cursor
  loop. The callbacks are recorded as a list of events. The cancellation
  hook is the set of rounds at which it answers true.
- `Crypto` (`crypto.dfy`) holds the ciphertext framing
  `[ivLength][iv][ciphertext]` of `src/browser/crypto.ts` and
  `src/webworker/crypto.ts`, and the web worker's
  `encryptBytes`/`decryptBytes`, with AES-GCM as a function parameter.

The code behaves as follows, and the model follows it:

- A sync from an old version is sent the *latest* version's info and
  block 0 directly (`Api.ExampleReplay`). Intermediate versions are
  skipped. So a replay from `{version: 0, height: 0}` of a stack with
  versions 1 and 2 never sees version 1's later blocks.
- A write with a mismatched claim is not reported as a conflict. It
  changes nothing, and the request is still answered with `response.sync`
  on the latest stack (`Api.Api.HandleBlock`).
- A block claim that matches a superseded version row is accepted into
  that old row. Its hash is then chained from the *latest* version's hash
  (`Api.SupersededBlockWrite`).
- `handleSync` never compares the claimed hash.

## Model

| member | source | states |
|---|---|---|
| `Sql.WellformedMeetsSchema` | src/server/sql.ts:6-62 | the store invariant implies every schema constraint: unique uuid, unique (stack, version), unique (version, index), version > 0, height > 0, index >= 0 |
| `Sql.StackSelect` | src/server/sql.ts:93-106 | the row returned is a version of the named stack whose number is the highest of that stack |
| `Sql.StackSelectIsLatest` | src/server/sql.ts:93-106 | under the invariant, STACK_SELECT reads the stack's last version row, and finds one exactly when the stack exists |
| `Sql.StackVersionSelect` | src/server/sql.ts:108-120 | a row is found exactly when the stack has that version, and it carries that uuid and version |
| `Sql.BlockSelectByVersion` | src/server/sql.ts:122-135 | under the invariant a block is found exactly for indices `0 <= index < height` of the named version, and it is the block at that index |
| `Sql.InfoSelect` | src/server/sql.ts:137-144 | the info is found exactly when the version exists, and it is that version's info |
| `Sql.CreateTransaction` | src/server/sql.ts:72-91 | CREATE_STACK_INSERT, CREATE_VERSION_INSERT and CREATE_BLOCK_INSERT in order add one stack at version 1, height 1, with the given hash and block 0; a taken uuid fails the first insert |
| `Sql.NewStackWellformed` | src/server/sql.ts:72-91 | a create keeps the store invariant |
| `Sql.Claimed` | src/server/sql.ts:146-155 | a block write targets a row only if uuid, version, height and hash all match the claim |
| `Sql.BlockTransaction` | src/server/sql.ts:146-172 | BLOCK_INSERT then VERSION_UPDATE never raise under the invariant; a matched row gains one block at index = its old height, its height grows by 1 and its hash becomes the version hash; a mismatch changes nothing |
| `Sql.AppendBlockWellformed` | src/server/sql.ts:146-172 | a block write, matched or not, keeps the store invariant |
| `Sql.ClaimedVersion` | src/server/sql.ts:174-181 | a version write targets a row if version and hash match; height is not compared |
| `Sql.VersionTransaction` | src/server/sql.ts:174-191 | VERSION_INSERT then VERSION_BLOCK_INSERT amount to one step: on a match, version + 1 opens with height 1, hash = block hash, and its block 0; a taken number raises; a mismatch changes nothing unless version + 1 exists, which violates the block key |
| `Sql.OpenVersionNull` | src/server/sql.ts:174-191 | with hash and info bound it is the version write above; a hash or info bound as NULL never changes the tables; a NULL info fails NOT NULL exactly when the claim matches a row; otherwise only the block key can fail |
| `Sql.VersionTransactionNull` | src/server/sql.ts:174-191 | VERSION_INSERT with NULL bindings, then VERSION_BLOCK_INSERT, amount to `OpenVersionNull` under the invariant |
| `Sql.OpenVersionWellformed` | src/server/sql.ts:174-191 | a committed version write keeps the store invariant |
| `Sql.OpenVersionOutcome` | src/server/sql.ts:174-191 | under the invariant the write changes the store exactly when it claims the latest version and its hash, and then the latest projection is (version + 1, height 1, hash = block hash) |
| `Sql.VacuumSelect` | src/server/sql.ts:221-231 | a (uuid, version) pair is selected exactly when the stack has that version and it is below the stack's highest |
| `Sql.VacuumSelectStack` | src/server/sql.ts:221-231 | under the invariant a version is selected exactly when it is not its stack's last |
| `Sql.VersionDelete` | src/server/sql.ts:233-237 | every stack row stays in place; only the named stack loses version rows, exactly those numbered `version`, with their blocks inside them; every other version row stays |
| `Sql.DropVersionRows` | src/server/sql.ts:233-237 | the surviving version rows are exactly those of another number, and nothing changes when no row has that number |
| `Sql.VacuumKeepsLatest` | src/server/sql.ts:221-237 | deleting every selected version leaves each stack with exactly its highest version, blocks unchanged |
| `Sql.KeepLatestWellformed` | src/server/sql.ts:221-237 | after the vacuum the invariant holds and every stack reads the same latest projection as before |
| `Sql.SizeSelectRows` | src/server/sql.ts:193-206 | SIZE_SELECT reports exactly the versions that have blocks, each with the total length of its blocks' data |
| `Sql.StackSizeSelectRows` | src/server/sql.ts:208-219 | STACK_SIZE_SELECT reports exactly the blocks of the named stack, each with its data length; an unknown uuid gives none |
| `Store.Selected` | src/common/server/db.ts:44-61 | the current transactions' result is the latest projection; a missing stack raises the TypeError of reading its hash |
| `Store.LegacySelected` | src/server/db.ts:44-61 | the legacy transactions return `undefined` exactly where the current ones raise, and otherwise the same projection |
| `Store.MissingStackWrites` | src/server/db.ts:50-61 | on a missing stack a block write and a version write change nothing, so the legacy commit and the current rollback leave the same tables |
| `Store.Db.Create` | src/common/server/db.ts:44-49 | an atomic create: a new stack at version 1, height 1, with the given hash, or on a taken uuid the raise and the old tables |
| `Store.Db.BlockWrite` | src/common/server/db.ts:51-55 | the tables become the one-step block write, which is silent on a mismatch and on a hash bound as NULL, and the result is the latest projection |
| `Store.Db.VersionWrite` | src/common/server/db.ts:57-61 | a committed version write (with hash or info possibly NULL) and its latest projection, or on a constraint violation the raise and the old tables |
| `Store.Db.Vacuum` | src/common/server/db.ts:120-129 | the loop deletes the selected versions one by one, leaving every stack with exactly its latest version |
| `Store.Db.Read` | src/common/server/db.ts:67-73 | the latest projection, or "Stack not found" when the stack is absent |
| `Store.Db.LegacyRead` | src/server/db.ts:67-69 | the latest projection, or nothing (undefined) when the stack is absent; no error is raised |
| `Store.Db.VersionRead` | src/common/server/db.ts:75-81 | the projection of the named version exactly when it exists, else "Stack not found" |
| `Store.Db.BlockRead` | src/common/server/db.ts:83-89 | the block at an index below the version's height, else "Block not found" |
| `Store.Db.InfoRead` | src/common/server/db.ts:91-93 | the info of the named version exactly when it exists, else the TypeError of reading `info` |
| `Store.Db.Size` | src/common/server/db.ts:105-118 | with a uuid, one "size.block" entry per block row of that stack, carrying the row's version, created, index, hash and size; without, one "size.version" entry per version row with blocks, carrying its uuid, created, updated, version, height, hash and size |
| `HashChain.ChainExtend` | src/common/server/api.ts:83-90 | appending a block folds its digest into the running hash with the chain function |
| `HashChain.CommonChain` | src/common/server/api.ts:31-37 | the chain is seeded with SHA-256 of the first block; each later block gives SHA-256(previous hash ++ SHA-256(block)) |
| `Api.AuthNone` | src/common/server/api.ts:51-57 | the default policy grants every permission |
| `Api.Answer` | src/common/server/api.ts:143-146 | a raised error becomes `response.error` carrying its text, and that answer is never the "request not handled" refusal |
| `Api.MessageNotHandled` | src/common/server/api.ts:140-146 | no raised error has the text "request not handled", so a refusal is told apart from a failure |
| `Api.NewStackChained` | src/common/server/api.ts:67-76 | a created stack is sealed by the digest of its single block |
| `Api.AppendBlockChained` | src/common/server/api.ts:83-90 | a block write whose version hash is chained from the latest hash keeps every latest version sealed by the chain over its blocks |
| `Api.OpenVersionChained` | src/common/server/api.ts:97-104 | a new version, sealed by the digest of its block 0, keeps the chain invariant |
| `Api.KeepLatestChained` | src/common/server/api.ts:131-136 | vacuum keeps the chain invariant |
| `Api.LatestClaimChain` | src/common/server/api.ts:87-90 | a matched claim names the latest row exactly when it names the latest version, and then the chained hash equals SHA-256(claimed hash ++ block hash) |
| `Api.SupersededBlockWrite` | src/common/server/api.ts:87-90 | a claim matching a superseded version is written into that old row, chained from the latest hash; the latest version is unchanged |
| `Api.AppendBlockLatest` | src/common/server/db.ts:51-55 | a block write keeps the invariant and neither adds nor removes a stack |
| `Api.ExampleState` | src/common/server/api.ts:67-107 | create a, write b, open a version with c: version 1 is [a, b] sealed by chain(leaf(a), leaf(b)); version 2 is [c] sealed by leaf(c); both invariants hold |
| `Api.ExampleReplay` | src/common/server/api.ts:151-175 | in that example a cursor on any version other than 2, including {0, 0}, is sent version 2's info and block c, so version 1 is skipped |
| `Api.Api.ReadLatest` | src/server/api.ts:91-92 | the latest projection; a missing stack raises "Stack not found" on the current server, or the TypeError of reading a field of undefined on the legacy one |
| `Api.Api.HandleSync` | src/common/server/api.ts:151-175 | same version and height: `response.sync` with the server stack, hash not compared; same version only: `response.block` with the latest block at the claimed height, or "Block not found" outside `0 <= height < server height`; any other version: `response.version` with the latest info and block 0 |
| `Api.Api.HandleRead` | src/common/server/api.ts:120-129 | the named version's projection and its block at the index, or "Stack not found" / "Block not found" |
| `Api.Api.HandleCreate` | src/common/server/api.ts:67-76 | a new stack at version 1, height 1, hash = SHA-256 of the block, or `response.error` on a raise |
| `Api.Api.HandleBlock` | src/common/server/api.ts:78-93 | the conditional block write with the hash chained from the latest stored hash, answered `response.sync` with the latest stack whether or not the write applied; a missing claimed hash changes nothing |
| `Api.Api.HandleVersion` | src/common/server/api.ts:95-107 | the conditional version write, with hash or info possibly NULL, answered `response.sync` with the latest stack, or `response.error` on a rolled-back raise |
| `Api.Api.HandleRequest` | src/common/server/api.ts:63-149 | an unknown tag gives "request not handled" and changes nothing; with every permission granted no request gets that answer; each tag is served by its own branch, as the Serve rows state (missing-field errors by kind, not text) |
| `Api.Api.ServeCreate` | src/common/server/api.ts:67-76 | a refused permission gives "request not handled"; a missing field gives an error; otherwise the create |
| `Api.Api.ServeBlock` | src/server/api.ts:82-97 | a missing stack field raises on its uuid; a refused permission gives "request not handled"; a missing block is an error; a missing hash is an error on the current server, while the legacy one binds it as NULL and answers `response.sync` with the tables unchanged; otherwise the block write |
| `Api.Api.ServeVersion` | src/server/api.ts:99-111 | a missing stack field raises on its uuid; a refused permission gives "request not handled"; a missing block is an error; a missing hash or info is an error on the current server, while the legacy one binds it as NULL (`OpenVersionNull`); otherwise the version write |
| `Api.Api.ServeSync` | src/common/server/api.ts:109-112 | the reconciliation answer for the claimed stack, with no write |
| `Api.Api.ServeSize` | src/common/server/api.ts:114-118 | the size report for the stack named, or for every stack |
| `Api.Api.ServeRead` | src/common/server/api.ts:120-129 | the read of one version and one block |
| `Api.Api.ServeVacuum` | src/common/server/api.ts:131-136 | `response.vacuum` after every stack is cut to its latest version |
| `Types.SizeGuards` | src/types.ts:46-58 | both report guards are false on an empty report and otherwise look only at the first entry's kind; never both hold |
| `Types.RequestGuards` | src/types.ts:154-204 | `isRequest` holds exactly for the seven request tags, and the seven request guards exclude one another |
| `Types.ResponseGuards` | src/types.ts:166-232 | each response guard recognises exactly its own variant, and every response satisfies `isResponse` |
| `Types.FormatString` | src/types.ts:234-236 | the first `min(4, len)` characters, "...", the last `min(4, len)`; length `2 min(4, len) + 3` |
| `Types.FormatStackLayout` | src/types.ts:242-251 | uuid, version and height, and the hash only when present, comma-joined inside braces |
| `Types.FormatSizeLayout` | src/types.ts:263-279 | an empty report is "{}"; any other is its count and its total size |
| `Client.NoErrorCancelled` | src/client/axios.ts:116 | no server error has the text "cancelled", so a cancellation is told apart from a server error |
| `Client.BlockStepReplays` | src/client/axios.ts:89-96 | a block response raises the cursor height by 1 and sets `updated` to the block's creation time; version and hash are kept; the cursor gets strictly nearer the server's |
| `Client.VersionStepReplays` | src/client/axios.ts:98-107 | a version response, drawn only on another version, resets the cursor to (server version, height 1, block 0's hash) and brings it nearer |
| `Client.ReplayingMeans` | src/client/axios.ts:75-117 | a stopped replay has delivered at most the latest height of blocks, in index order, only the first of them a version event, and all remaining blocks when in step |
| `Client.Client.Create` | src/client/axios.ts:57-68 | resolves only on `response.create`, with the new stack at version 1, height 1; anything else is thrown |
| `Client.Client.Block` | src/client/axios.ts:125-136 | resolves only on `response.sync`; with permission and an existing stack it always resolves, whether or not the write applied |
| `Client.Client.Version` | src/client/axios.ts:145-157 | resolves only on `response.sync`, and then exactly when the version write committed |
| `Client.Client.Size` | src/client/axios.ts:163-173 | resolves only on `response.size`, with the server's report |
| `Client.Client.Read` | src/client/axios.ts:181-192 | resolves only on `response.block`, with the named version and block |
| `Client.Client.Vacuum` | src/client/axios.ts:195-204 | resolves only on `response.vacuum`, after the vacuum |
| `Client.Client.Pull` | src/client/axios.ts:80-83 | one sync request: in step only at the server's (version, height); a block only at a lower height of the same version; a version response only from another version |
| `Client.Client.Round` | src/client/axios.ts:80-111 | one round moves the cursor as the response says, records the callback, and strictly shrinks the distance to the server |
| `Client.Client.Sync` | src/client/axios.ts:75-117 | a cancellation is asked before the first request and after every handled response, and throws "cancelled"; `response.sync` is returned as is; errors are thrown; at most the server height of callbacks run, in block order; without cancellation or refusal a cursor in reach comes into step |
| `Client.Client.Walk` | src/client/axios.ts:76-116 | the loop keeps the replay invariant and ends, its measure being the remaining distance to the server |
| `Crypto.Frame` | src/webworker/crypto.ts:156-162 | the framed length is `1 + iv.length + bytes.length` |
| `Crypto.Slice` | src/webworker/crypto.ts:166-167 | `slice` never fails: in range it is the sub-range; an end past the length stops at the length; a start past the length or past the end gives nothing |
| `Crypto.EncodeEncryptedBytes` | src/browser/crypto.ts:50-56 | the fresh array is byte `iv.length mod 256`, then the IV, then the ciphertext |
| `Crypto.DecodeEncryptedBytes` | src/browser/crypto.ts:58-63 | IV and ciphertext together are the input after byte 0, the IV length being byte 0 clamped; an empty input gives two empty parts |
| `Crypto.DecodeFrame` | src/webworker/crypto.ts:156-169 | decoding undoes encoding exactly when the IV is at most 255 bytes long |
| `Crypto.DecodeSplits` | src/browser/crypto.ts:58-63 | for a non-empty input, the IV is the bytes after byte 0 and the ciphertext the rest |
| `Crypto.EncryptBytes` | src/webworker/crypto.ts:52-63 | the output is the frame of the IV and the ciphertext |
| `Crypto.EncryptedLayout` | src/webworker/crypto.ts:119-131 | an encrypted output starts with byte `ivLength` (12 in CRYPTO_PARAMS) and that many IV bytes |
| `Crypto.DecryptBytes` | src/webworker/crypto.ts:79-90 | the cipher is given exactly the IV and ciphertext that decoding splits off |
| `Crypto.DecryptEncrypted` | src/webworker/crypto.ts:52-90 | with an inverting cipher and an IV of at most 255 bytes, decryptBytes returns what encryptBytes was given |
| `Crypto.BrowserEncryptBytes` | src/browser/crypto.ts:109-120 | the browser keeps the IV it drew, of the configured length, beside the ciphertext, unframed |
| `Crypto.BrowserDecryptEncrypted` | src/browser/crypto.ts:109-149 | with an inverting cipher, the browser's decryptBytes returns what its encryptBytes was given |

## Left out

- SHA-256 (FIPS 180-4) is a function parameter, not an implementation. The hex encoding and UTF-8 encoding of the legacy server are parameters too.
- Base64 (section 4 of RFC 4648) is not modelled. Binary fields are carried decoded. `intoStack`/`intoBlock` (src/common/server/db.ts:131-140) only re-encode `hash`/`data`, so they are identities here. The legacy `bufferFromBase64` is the abstract `decode` parameter, because it goes through UTF-8 text and does not preserve bytes.
- AES-GCM, PBKDF2 key derivation, and JWK import and export are foreign WebCrypto calls. The cipher is a parameter. Random IVs and salts are inputs.
- The browser `Client` and `CryptoClient` are not part of this model. They only route keys and bytes through the crypto calls and the base client.
- HTTP, axios and Express routing are left out. The client calls the handler object directly, so a transport failure is not modelled.
- Concurrent writers and `async` interleaving are not modelled. Each request is one atomic step, which is how SQLite serialises transactions.
- `uuidV4` and `strftime` are left out. The fresh uuid and the clock `now` are inputs. Timestamps are opaque integers.
- The `VACUUM` statement only reclaims storage and has no logical effect. The debug log lines are left out. Only the log formatters named above are modelled; `formatBlock` and `formatInfo` are not.
- `Auth` predicates are plain booleans and functions, not promises.
- The sync callbacks `onBlock`/`onVersion` and the cancellation hook cannot throw in the model. In the source a throwing callback rejects `sync` in the middle of a replay; `Client.Client.Sync` does not cover that outcome.
- `Store.Db.BlockWrite`, `Store.Db.VersionWrite`, `Store.Db.Create`: the class returns the current store's result. The legacy store's `undefined` is `Store.LegacySelected` of the same tables, and the handler's reading of it is `Api.MissingWritten`.
- `Api.Api.ServeCreate`: a missing `info` or `block` field is stated only as some `response.error`, without the exact text the JavaScript runtime produces.
- `Api.Api.ServeBlock`: a missing `block` field, and on the current server a missing `hash`, is stated only as some `response.error`, without the exact text.
- `Api.Api.ServeVersion`: a missing `block` field, and on the current server a missing `hash` or `info`, is stated only as some `response.error`, without the exact text.
- `Api.Api.ServeRead`: a read body whose `block` object has no `index` is treated like one with no `block`, which raises reading `index`. In the source, `block: {}` gives an undefined index bound as NULL, so the answer is "Error: Stack not found" or "Error: Block not found". The request body does not tell these two apart.
- `Types.FormatString`: lengths and slices count characters. JavaScript `length` and `slice` count UTF-16 code units, so the two differ on characters outside the Basic Multilingual Plane.
- `Crypto.DecryptBytes`: the cipher's `decrypt` is total. WebCrypto AES-GCM rejects a ciphertext whose authentication tag does not match, and that rejection is not modelled.
- `Api.Api.HandleRequest`: the missing-field errors of the create, block and version branches are stated by kind only, as listed for the Serve members above.
- SQLite row ids are not modelled. Rows are identified by uuid and version number, and the foreign keys hold by nesting. The delete order of `vacuum` follows the order of the rows.

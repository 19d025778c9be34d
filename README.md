# HeaderStore: a verified model of an append-only block-header ledger

This project models `HeaderStore` from `src/storage.rs` in Dafny. `HeaderStore` is
the persistent header chain of a small proof-of-work client. It keeps the chain
of block headers in memory. It mirrors them in a log file made of
length-prefixed records: a 4-byte little-endian `u32` payload length, then the
consensus encoding of one header.

The model has three parts.

- **Log replay** (`open`). `Storage.ReplayLog` is the reading loop. It is
  proved equal to the specification function `LogFormat.Replay`. The lemmas
  about `Replay` give the round trip against `LogFormat.Records`, which holds
  the bytes `append` writes, and the framing rules.
- **Validated append** (`append`). `Storage.HeaderStore.Append` is the
  validate/write/push loop, over the fields `headers` and `log`. It is proved
  against `Chain.AcceptedPrefix` and `Chain.AppendOutcome`. It commits exactly
  the prefix before the first rejected candidate. It keeps the chain linked and
  keeps the log a mirror of memory.
- **Queries**: `Height`, `Tip` and `LocatorHashes`, as functions on the store.

The bitcoin library is not reimplemented. Its consensus encoding and decoding,
`block_hash`, `validate_pow(target())` and the genesis hash of each network are
the function fields of a `Bitcoin.Consensus` value. `Bitcoin.Lawful` states the
one law the store relies on: an encoded header fits a `u32` length, and decoding
it gives the header back. The byte framing itself is modelled concretely in
`LittleEndian`.

Modules, one per file: `Wrappers` (Option, Result), `Errors`, `LittleEndian`,
`Bitcoin`, `LogFormat` (the record format and replay), `Chain` (the admission
rule), `Storage` (the `HeaderStore` class).

Where the intended design and the code disagree, the model follows the code:

- The code ends replay cleanly when 1 to 3 bytes remain at a record
  boundary. A short read of the length prefix reports `UnexpectedEof`, and the
  loop breaks on that (src/storage.rs:23, 33). The intended format says this is
  a fatal truncated record. The model replays as the code does (see
  "## Findings").
- Any failure of `File::open` gives an empty store with no error
  (src/storage.rs:20), even when the file exists but cannot be read. The
  intended design reports such failures as I/O errors.

## Model

| member | source | states |
|---|---|---|
| `LittleEndian.ToLe` | src/storage.rs:75 | the little-endian encoding of a number at a given width has exactly that many bytes, least significant first |
| `LittleEndian.FromLe` | src/storage.rs:25 | the value of little-endian bytes `bs` is below `256^|bs|`, so four bytes always give a `u32` |
| `LittleEndian.FromToLe` | src/storage.rs:25 | decoding the `width` little-endian bytes of any `n < 256^width` gives `n` |
| `LittleEndian.ToFromLe` | src/storage.rs:25 | re-encoding the value of any byte string at its width gives the same bytes, so a length prefix is determined by its value |
| `LittleEndian.U32ToLe` | src/storage.rs:75 | `to_le_bytes` of a `u32` is exactly 4 bytes |
| `LittleEndian.U32FromToLe` | src/storage.rs:74-75 | `from_le_bytes(to_le_bytes(n)) == n` for every `u32` |
| `LittleEndian.U32FromLe` | src/storage.rs:25 | defines `u32::from_le_bytes` of 4 bytes as their little-endian value, which its type keeps below 2^32 |
| `LittleEndian.U32ToFromLe` | src/storage.rs:25 | `to_le_bytes(from_le_bytes(b)) == b` for every 4 bytes `b` |
| `LittleEndian.AsU32` | src/storage.rs:74 | the cast `as u32` keeps every length below 2^32 unchanged |
| `LogFormat.Record` | src/storage.rs:73-76 | the record written for one header is 4 bytes longer than its encoding and ends with exactly that encoding |
| `LogFormat.Records` | src/storage.rs:61-77 | the bytes written for a batch of headers, in order: at least 4 bytes per header |
| `LogFormat.Replay` | src/storage.rs:22-36 | the headers a log replays to, or the first framing or decoding error; with `StopAtFragment` it is the loop of `open`; a successful replay has at most one header per 4 bytes of log |
| `LogFormat.RecordFraming` | src/storage.rs:73-76 | a record is `4 + len` bytes; its first 4 bytes decode as a `u32` to the payload length; the rest is the payload |
| `LogFormat.RecordsConcat` | src/storage.rs:61-79 | the records of two batches written one after the other are the records of the joined batch |
| `LogFormat.RecordsSnoc` | src/storage.rs:73-77 | writing one more header appends exactly its record to the log |
| `LogFormat.ReplayRecord` | src/storage.rs:24-31 | replaying one well-formed record yields its header, then replay continues with the bytes after it |
| `LogFormat.ReplayAfterRecords` | src/storage.rs:22-36 | replaying the records of `hs` followed by any bytes yields `hs` in front of what those bytes replay to, errors included |
| `LogFormat.ReplayRoundTrip` | src/storage.rs:22-36 | round trip: the bytes `append` writes for `hs` replay to exactly `hs`, in order |
| `LogFormat.ReplayConcat` | src/storage.rs:22-36 | a log that replays with no trailing fragment is a whole number of records, so bytes appended after it replay after its headers |
| `LogFormat.StrictAgreesWithLenient` | src/storage.rs:23-33 | wherever the fragment-rejecting replay succeeds, the source's replay returns the same headers |
| `LogFormat.FragmentEndsReplay` | src/storage.rs:23-33 | a 1 to 3 byte tail after whole records ends the source's replay with the headers read so far; the strict replay calls it truncated |
| `LogFormat.TruncatedPayloadFails` | src/storage.rs:26-27 | a record whose payload is shorter than its declared length makes replay fail with an `UnexpectedEof` error |
| `LogFormat.UndecodablePayloadFails` | src/storage.rs:28-30 | a complete record whose payload does not decode makes replay fail with an `InvalidData` error |
| `LogFormat.AppendKeepsReplay` | src/storage.rs:61-79 | appending the records of `xs` to a log that replays strictly to `hs` gives a log that replays, under both policies, to `hs + xs` |
| `LogFormat.FragmentBreaksReplay` | src/storage.rs:23-33 | as written: `open` accepts a log ending in one stray byte, and after `append` writes a record behind it the log fails to replay |
| `Chain.Connects` | src/storage.rs:62-63 | a candidate connects when the chain is empty or its `prev_blockhash` is the tip's hash; on an empty chain every candidate connects |
| `Chain.Linked` | src/storage.rs:62-63 | defines a linked chain: every header after the first names its predecessor's hash |
| `Chain.Rejection` | src/storage.rs:62-72 | the check made on each candidate: it is admitted exactly when it connects and has valid proof of work; "does not connect" exactly when it does not connect; the proof-of-work error exactly when it connects but fails `validate_pow` |
| `Chain.AcceptedPrefix` | src/storage.rs:61-78 | the number of leading candidates the loop admits, each checked against the chain grown by the ones before it; never more than the batch |
| `Chain.AcceptedPrefixIsFirstRejection` | src/storage.rs:61-78 | every candidate in the accepted prefix passes against the chain grown by the ones before it, and the candidate right after the prefix fails |
| `Chain.AppendOutcome` | src/storage.rs:61-79 | `append` returns Ok exactly when every candidate was accepted |
| `Chain.AcceptedHaveValidPow` | src/storage.rs:70-72 | every accepted candidate has valid proof of work |
| `Chain.AppendKeepsLinked` | src/storage.rs:62-68 | if every stored header names its predecessor's hash, this still holds after the accepted prefix is added |
| `Chain.DisconnectedCandidateRejected` | src/storage.rs:62-68 | on a non-empty chain, a first candidate whose `prev_blockhash` is not the tip's hash is refused with "does not connect" and nothing is added |
| `Chain.InvalidPowRejected` | src/storage.rs:70-72 | a connecting first candidate without valid proof of work is refused with the proof-of-work error and nothing is added |
| `Chain.FirstCandidateOnEmptyChain` | src/storage.rs:62 | on an empty chain the first candidate is accepted exactly when its proof of work is valid; connectivity is not checked |
| `Chain.PrefixStep` | src/storage.rs:61-72 | with `k` the accepted prefix, for every position `i <= k` inside the batch, candidate `i` passes against `chain + batch[..i]` exactly when `i < k`; so candidate `k` is the first one rejected |
| `Chain.PrefixEnd` | src/storage.rs:61-79 | where admission stops, the accepted prefix ends there, and the outcome is Ok at the end of the batch, else the error of the failing candidate |
| `Chain.PartialBatchCommitsPrefix` | src/storage.rs:61-79 | a batch `[good, bad]`, where `bad` lacks proof of work, commits exactly `good` and fails with the proof-of-work error |
| `Storage.ReplayLog` | src/storage.rs:19-37 | the reading loop of `open` returns exactly `Replay(data)`: the headers of every record in order, or the first framing or decoding error |
| `Storage.RecentHashes` | src/storage.rs:89-94 | `rev().take(n).map(block_hash)`: the result has `min(n, len)` entries, and entry `i` is the hash of the `i`-th header from the end |
| `Storage.KeepsInvariants` | src/storage.rs:61-79 | committing the accepted prefix keeps the chain linked and the log mirrored |
| `Storage.Advance` | src/storage.rs:73-77 | writing candidate `i` extends the committed headers by one and the log by its record |
| `Storage.HeaderStore.constructor` | src/storage.rs:38-42 | the store holds exactly the given path, network, headers and log |
| `Storage.HeaderStore.Mirrors` | src/storage.rs:22-36 | the invariant between memory and disk: the log is a whole number of records that replays to exactly `headers`; a log that mirrors its store reopens to the same headers under the replay of `open` |
| `Storage.HeaderStore.Open` | src/storage.rs:18-43 | a file that cannot be opened gives an empty store and no error; otherwise a replay error is returned as it is, and a successful replay gives a store holding those headers over that log; the store mirrors its log exactly when the log has no trailing fragment |
| `Storage.HeaderStore.Height` | src/storage.rs:46-48 | the height is the number of stored headers |
| `Storage.HeaderStore.Tip` | src/storage.rs:51-53 | the tip is absent exactly when the store is empty, and is otherwise the last header |
| `Storage.HeaderStore.LocatorHashes` | src/storage.rs:83-95 | on an empty store the locator is exactly the network's genesis hash; otherwise it has `min(10, n)` entries, and entry `i` is the hash of `headers[n-1-i]` (tip first) |
| `Storage.HeaderStore.AppendOne` | src/storage.rs:62-77 | one candidate: the error is exactly `Rejection` against the current headers; on rejection nothing changes; otherwise the header is pushed and its record appended to the log |
| `Storage.HeaderStore.Append` | src/storage.rs:56-80 | with `k` the accepted prefix: `headers' == headers + batch[..k]`, `log' == log + Records(batch[..k])`, the result is the first rejection's error or Ok; the chain stays linked; a mirrored log stays mirrored |
| `Storage.ReopenAndExtend` | src/storage.rs:202-222 | a store opened with no file takes one header (height 1); reopened on its log it has height 1; after a connecting header it has height 2 |

## Left out

- File system I/O is not modelled. `open` takes the file's bytes as a value, or None when `File::open` fails. `append` updates the `log` field in place of writing the file.
- The OS errors of `read_exact` (other than end of file), of `OpenOptions::open` in `append`, and of `write_all` are not modelled. Neither is a write that fails between the length and the payload, or a failed payload allocation in `open`.
- `append` opens the file with create-if-absent before its loop, so an empty batch still creates an empty file. The model does not tell a missing file from an empty one.
- Storage.HeaderStore.Open: when the file exists but cannot be read, the model treats the log as empty. The bytes really on disk, which a later `append` would write after, are not modelled.
- The bitcoin library is not modelled beyond its interface: consensus serialization, double SHA-256 `block_hash`, compact-target arithmetic in `validate_pow`/`target`, and `genesis_block`.
- `open` does not re-check connectivity or proof of work on replayed headers. So `Append` states that the chain stays linked only if it was linked before; this is not proved for replayed data.
- Storage.HeaderStore.Height: the `as u64` cast is not written out; a `Vec` length always fits in a `u64`.
- The `path` field is kept but plays no part: the model has one log per store.
- Concurrency, and several stores sharing one file, are not modelled.
- Test plumbing is not modelled: random temp-file names and file removal (src/storage.rs:109-113). The tests' concrete headers are replaced by the abstract requirements they stand for.

## Findings

| source | as written | input that shows it | evidently intended | confidence | as-written member | corrected member |
|---|---|---|---|---|---|---|
| src/storage.rs:23-33 | a short read of the 4-byte length prefix counts as a clean end of log, so `open` accepts a log ending in 1 to 3 stray bytes; `append` then writes its records after those bytes | a log holding one record for `h0` followed by the byte `0x00`: `open` returns `[h0]`; after `append([h1])`, with `h1` encoding to 1 to 2^24-1 bytes (80 for a real header), replay reads `0x00` and the first three length bytes as one length, `256 * len`, which overruns the log, so reopening fails | a partial length prefix is a truncated record, like a partial payload, so `open` only accepts logs that `append` can extend and that still replay | not executed; high that the sequence fails, medium that the lenient stop was unintended | `LogFormat.FragmentBreaksReplay` | `LogFormat.AppendKeepsReplay` |

The corrected replay is `LogFormat.Replay` with `RejectFragment`. The store's
mirroring invariant, `Storage.HeaderStore.Mirrors`, uses it, and `Append`
preserves it (`AppendKeepsReplay`). `Storage.HeaderStore.Open` still replays as
the code does (`StopAtFragment`). Its contract says the resulting store
satisfies the invariant exactly when the strict replay accepts the file.

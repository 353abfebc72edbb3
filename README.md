# tripwirs core, modelled in Dafny

tripwirs is a file-integrity monitor. A plain-text policy names the roots to
scan and the paths to ignore. The policy is parsed and saved in an encrypted
envelope. `scan_path` walks one root and records a content hash for every
regular file, plus a marker for every directory whose iterator yields no
items. `gen_db`'s loop over the roots is still empty, so nothing calls
`scan_path` yet.

This project models three source files:

- `wrappers.dfy` (module `Wrappers`): the `Option` and `Result` shapes used
  throughout.
- `crypto.dfy` (module `Crypto`, src/crypto.rs). It models:
  - the key derivation that stretches or cuts a passphrase to the 32-byte
    ChaCha20-Poly1305 key (section 2.8 of RFC 8439);
  - the nonce sequence: a `u128` counter that wraps back to 1 above 2^96−1,
    whose nonce is the low 12 little-endian bytes of the counter;
  - `save_encrypted` and `read_decrypted`, with the error order of the
    source.

  The cipher and the serializer are parameters. The file system is a `Disk`
  object holding a map from path to bytes.
- `config.dfy` (module `Config`, src/config.rs). It models the policy parser
  that `gen_config` runs over the lines `read_line` returns.
  - The parser is a `while` loop (`Config.ParsePolicy`), proved against a recursive
    specification `Parse`.
  - `Parse` is in turn characterized without a threaded mode: the last
    header decides the mode, scans keep order and duplicates, ignores form a
    set.
  - `GenConfig` parses, then saves through the envelope.
- `tripwirs.dfy` (module `Tripwirs`, src/tripwirs.rs). It models the older
  parser loop and `scan_path`.
  - The older parser is proved against `OldParse` and compared with the
    current one.
  - The filesystem is a finite tree `Node`: a file with content, a
    directory whose iterator yields entries or erroring items, or something
    unreadable.
  - `ScanPath` keeps the source's explicit stack and an in-place database
    (`Db`). It is proved equal to `Visit`, a recursive depth-first traversal
    in the same order. Lemmas about `Visit` state:
    - that a walk fails exactly when some reachable file fails to hash, and
      that the error it returns is the hash error of such a file;
    - that nothing is removed from the database;
    - that every value left is either the one the database held before or
      one a reachable item writes;
    - that, without an error, every path a reachable item writes is present
      and holds one of the values written to it (not necessarily the last).

Behaviour of the code as it stands, followed by the model:

- Every save and every open builds a fresh nonce sequence, so each seal and
  open uses counter value 1. No nonce suffix is persisted.
- `scan_path` never consults the ignore set. The model keeps its `config`
  argument unused.
- There is no symlink node kind: `is_file` and `read_dir` follow links.
- The first hash error aborts the whole scan. A directory that cannot be
  read is skipped silently.
- The content hash is unkeyed. The 192-byte secret in the policy is
  generated but never used by the code modelled here.

## Model

| member | source | states |
|---|---|---|
| Crypto.LengthFit | src/crypto.rs:39-60 | a non-empty passphrase yields exactly key-length bytes, byte i being passphrase byte i mod its length; the empty passphrase yields no bytes |
| Crypto.LengthFitOfLongPassphrase | src/crypto.rs:55-57 | a passphrase at least as long as the key is cut to its first key-length bytes, and one of exactly that length is returned unchanged |
| Crypto.RepetitionsShareKey | src/crypto.rs:43-57 | a passphrase and any longer string that repeats it (a whole number of times, or at least key-length long) derive the same key |
| Crypto.ExtendStep | src/crypto.rs:45-53 | one pass of the as-written extension loop never overshoots the key length, and grows the buffer exactly when the original length is non-zero |
| Crypto.ExtendLoop | src/crypto.rs:44-54 | any bounded number of passes of the as-written loop stays between the current length and the key length |
| Crypto.EmptyPassphraseLoopsForever | src/crypto.rs:43-54 | from an empty passphrase, no number of passes changes the buffer or reaches the key length (the loop does not end) |
| Crypto.ExtendStepKeepsPattern | src/crypto.rs:45-53 | a pass over a whole number of copies of the passphrase appends one more copy or stops exactly at the key length, and keeps every byte equal to the passphrase byte at its index mod the length |
| Crypto.ExtendLoopFits | src/crypto.rs:43-54 | with enough passes, the as-written loop from a repeating prefix ends with exactly the length-fit key |
| Crypto.AsWrittenAgreesOnNonEmpty | src/crypto.rs:43-54 | for a non-empty passphrase shorter than the key, the as-written loop terminates within key-length passes with the length-fit key |
| Crypto.GetCompatiblePassphrase | src/crypto.rs:39-60 | the loop extending the passphrase in place (guarded against the empty passphrase) returns the length-fit key |
| Crypto.LeBytes | src/crypto.rs:28 | the little-endian encoding to n bytes has n bytes |
| Crypto.FromLe | src/crypto.rs:28 | the value read from n little-endian bytes is below 256^n |
| Crypto.LeBytesRoundTrip | src/crypto.rs:28 | decoding the n-byte encoding of a value below 256^n gives back the value |
| Crypto.FromLeRoundTrip | src/crypto.rs:28 | re-encoding the value of a byte string at its own length gives back the bytes |
| Crypto.LeBytesPrefix | src/crypto.rs:27-33 | the first n bytes of the m-byte encoding are the n-byte encoding, so keeping 12 of `to_le_bytes`'s 16 bytes keeps the low 12 |
| Crypto.NonceBytes | src/crypto.rs:27-33 | a nonce is 12 bytes |
| Crypto.NonceInjective | src/crypto.rs:23-33 | two counters in the reachable range with equal nonces are equal |
| Crypto.NextCounter | src/crypto.rs:21-25 | after an advance the counter lies in [1, 2^96−1] and below the top it is the old value plus one |
| Crypto.CounterAfter | src/crypto.rs:14-25 | the counter after any number of advances from zero never exceeds 2^96−1, so the `u128` cannot overflow |
| Crypto.CounterClosedForm | src/crypto.rs:14-25 | after n ≥ 1 advances the counter is (n−1) mod (2^96−1) + 1 |
| Crypto.NoNonceReuseWithinPeriod | src/crypto.rs:20-35 | two advances of one sequence fewer than 2^96−1 apart give different nonces |
| Crypto.CounterPeriodic | src/crypto.rs:21-25 | the counter repeats with period 2^96−1 and is never zero after an advance |
| Crypto.FirstNonce | src/crypto.rs:14-33 | the first nonce of a fresh sequence is the byte 1 followed by eleven zeros |
| Crypto.CopyNonceBytes | src/crypto.rs:27-33 | the copy loop that stops at index 12 fills the buffer with the first 12 of the 16 counter bytes |
| Crypto.FixedNonceSequence.constructor | src/crypto.rs:14-16 | a new sequence starts at counter 0 |
| Crypto.FixedNonceSequence.Advance | src/crypto.rs:20-36 | advance moves the counter to its successor with reset, keeps it in range, and returns the 12-byte nonce of the new counter |
| Crypto.SealedBytes | src/crypto.rs:95-106 | defines the bytes `save_encrypted` writes: the encoding sealed under the length-fit key, or the first of EncodeError, CouldNotCreateKey (empty derived key, by the corrected derivation), CouldNotEncrypt |
| Crypto.SaveOutcome | src/crypto.rs:90-110 | defines the result of `save_encrypted`: the sealing error if any, else an I/O error when the file cannot be created, else success |
| Crypto.InPlaceBuffer | src/crypto.rs:126-130 | defines the buffer `open_in_place` leaves and `decode_from_slice` reads: the plaintext followed by the rest of the sealed bytes, the 16 tag bytes |
| Crypto.OpenedValue | src/crypto.rs:116-130 | defines the result of `read_decrypted`: CouldNotCreateKey (corrected derivation), I/O error for a missing file, WrongPassphrase when opening fails, DecodeError, else the value decoded from the in-place buffer (plaintext followed by the 16 tag bytes) |
| Crypto.SaveEncrypted | src/crypto.rs:90-110 | the result follows the source's error order (encode, key, seal, create), with the corrected key derivation so an empty passphrase gives CouldNotCreateKey where the source loops forever, and the output file changes, to the sealed bytes, only on success |
| Crypto.ReadDecrypted | src/crypto.rs:112-131 | the result follows the source's error order (key, read, open, decode), with the corrected key derivation so an empty passphrase gives CouldNotCreateKey where the source loops forever; decoding runs over the whole buffer `open_in_place` leaves, plaintext then tag; nothing but the named file is read |
| Crypto.EnvelopeRoundTrip | src/crypto.rs:90-131 | what is saved under a passphrase reads back as the same value under any passphrase deriving the same key, given a cipher that appends a 16-byte tag and opens what it seals, and a decoder that inverts the encoder while ignoring 16 trailing bytes |
| Crypto.EmptyPassphraseRejected | src/crypto.rs:97-119 | with the corrected derivation an empty passphrase fails both saving and reading with CouldNotCreateKey |
| Config.TrimStartSpec | src/config.rs:48 | `trim_start` removes exactly the leading run of whitespace |
| Config.TrimEndNewlinesSpec | src/config.rs:62 | `trim_end_matches('\n')` removes exactly the trailing newlines and keeps the rest |
| Config.IsBlank | src/config.rs:48 | defines `line.trim().is_empty()`: nothing is left after the leading whitespace |
| Config.IsComment | src/config.rs:48 | defines `line.trim_start().starts_with('#')`: the first character after the leading whitespace is '#' |
| Config.IsSkipped | src/config.rs:48 | defines the skip test: a comment or a blank line |
| Config.HeaderMode | src/config.rs:53-59 | defines the current header match: exactly "[SCAN]\n" or "[scan]\n" select Scan, "[IGNORE]\n" or "[ignore]\n" select Ignore, anything else is no header |
| Config.Step | src/config.rs:47-72 | defines one pass of the loop: a blank or comment line changes nothing, a header line sets the mode, any other line is added, without trailing newlines, to the scans or the ignores as the mode says |
| Config.Parse | src/config.rs:45-72 | defines the parser state after all lines: the passes of `Step` from Scan mode and an empty policy, in order |
| Config.ParsePolicy | src/config.rs:44-72 | the line loop, with its skip, header and entry arms, ends with the policy of the parser specification |
| Config.ParseCharacterized | src/config.rs:45-72 | the final mode is that of the last header (Scan without one), scans are the scan-mode entries in order with repeats, ignores are the set of ignore-mode entries, all without trailing newlines |
| Config.IgnoreEntriesSnoc | src/config.rs:64-68 | one more line adds to the ignore set exactly its own trimmed entry, when it is an entry read in ignore mode |
| Config.InitialModeIsScan | src/config.rs:45-69 | without any header the mode stays Scan, the scans are exactly the entry lines in order (repeats kept, trailing newlines removed) and nothing is ignored |
| Config.EntriesOfEntryLines | src/config.rs:60-62 | when every line is an entry, the entries are all the lines in order, each without its trailing newlines |
| Config.NoHeaderMeansScanMode | src/config.rs:45-59 | with no header line the mode of the last header is the initial Scan (a corollary of InitialModeIsScan) |
| Config.SkippedLineIsInvisible | src/config.rs:48-51 | inserting a blank or comment line anywhere changes neither mode nor policy |
| Config.EntryAfterHeader | src/config.rs:53-69 | an entry right after a header lands, trimmed, in the collection that header names |
| Config.HeaderIsNotSkipped | src/config.rs:48-59 | a header line is neither blank nor a comment, so it reaches the header arms |
| Config.NearMissHeadersAreEntries | src/config.rs:53-62 | lines that only resemble a header (no newline, CRLF, trailing space, mixed case) are entries, and indentation is kept |
| Config.ExampleLines | src/config.rs:48-62 | how each line of the example policy is classified |
| Config.ParseSnoc | src/config.rs:47-72 | reading one more line is one more pass of the loop |
| Config.ExamplePolicy | src/config.rs:47-72 | a policy with comments, blanks, both headers and repeated lines parses to the expected scans and ignores |
| Config.ExamplePolicyHead | src/config.rs:47-72 | the example's first five lines leave one scan root and ignore mode |
| Config.GenConfig | src/config.rs:40-77 | an input that cannot be opened or read (including a line that is not valid UTF-8) fails with an I/O error and leaves the disk alone; otherwise the parsed policy is saved through the envelope, with the corrected key derivation, and its outcome returned |
| Tripwirs.OldHeaderMode | src/tripwirs.rs:39-44 | defines the older header match: exactly "[SCAN]" or "[scan]" select Scan, "[IGNORE]" or "[ignore]" select Ignore, no newline allowed |
| Tripwirs.OldStep | src/tripwirs.rs:38-52 | defines one pass of the older loop: a header sets the mode, every other line (blank and comment lines included) is added verbatim to the scans or the ignores |
| Tripwirs.OldParse | src/tripwirs.rs:37-55 | defines the older parser state after all lines: the passes of `OldStep` from Scan mode and an empty policy |
| Tripwirs.OldParsePolicy | src/tripwirs.rs:34-55 | the older loop ends with the policy of the older parser specification |
| Tripwirs.TerminatedHeadersNeverMatch | src/tripwirs.rs:37-44 | over newline-terminated lines the older parser never leaves Scan mode and keeps every line verbatim as a scan root |
| Tripwirs.OldParseOfReadLines | src/tripwirs.rs:37-52 | on read_line output the older parser ignores nothing and recognises a header only as an unterminated last line |
| Tripwirs.OldStepInScanMode | src/tripwirs.rs:38-52 | one older step from scan mode adds no ignore: a header only switches the mode, any other line is appended verbatim to the scans |
| Tripwirs.VariantsAgreeOnPlainEntries | src/tripwirs.rs:37-52 | the older and current parsers agree exactly on unterminated plain entry lines (a corollary of VariantsAgreeUpToNewlines) |
| Tripwirs.OldParseWithoutHeaders | src/tripwirs.rs:37-52 | with no older header line, the older parser stays in Scan mode and scans every line verbatim, in order |
| Tripwirs.VariantsAgreeUpToNewlines | src/tripwirs.rs:37-52 | on any entry lines, terminated or not, that neither parser treats as a header, both scan the same lines in the same order and ignore nothing; the current parser's scan i is the older one's with its trailing newlines removed |
| Tripwirs.VariantsDiffer | src/tripwirs.rs:37-52 | on "[ignore]\n", "/tmp\n" the current parser ignores /tmp while the older one scans both lines verbatim |
| Tripwirs.VisitAll | src/tripwirs.rs:103-130 | defines the stack loop: pop the top item, hash and record a file (stopping at a hash error), record an item-less directory as D, push a directory's readable entries, skip an unreadable path, until the stack is empty |
| Tripwirs.Visit | src/tripwirs.rs:95-133 | defines the depth-first traversal of a tree in the order the stack loop pops it: a file is hashed, a directory's entries are visited from the last to the first |
| Tripwirs.VisitChildren | src/tripwirs.rs:119-124 | defines the traversal of a directory's entries from the last to the first, skipping erroring items and stopping at the first hash error |
| Tripwirs.Record | src/tripwirs.rs:107-129 | defines what an item writes: a file its hash (nothing when hashing fails), a directory with no items D, anything else nothing |
| Tripwirs.EntryCount | src/tripwirs.rs:119-123 | defines the number of readable entries among a directory's iterator items |
| Tripwirs.Pushed | src/tripwirs.rs:119-124 | defines the items pushed for a directory's entries: each readable entry under its joined path, in iterator order |
| Tripwirs.Join | src/tripwirs.rs:122 | a child path is the parent followed by the name, with one separator unless the parent is empty or already ends in one |
| Tripwirs.VisitAllPush | src/tripwirs.rs:100-130 | running the stack with a tree on top is visiting that tree depth-first, then the rest of the stack unless an error occurred |
| Tripwirs.VisitAllPushChildren | src/tripwirs.rs:117-130 | running the stack after a directory's entries are pushed is visiting them from the last to the first, then the rest |
| Tripwirs.VisitAllOfRoot | src/tripwirs.rs:100-104 | the stack loop seeded with the root alone computes the recursive traversal |
| Tripwirs.VisitFailsIffHashFails | src/tripwirs.rs:107-110 | a walk fails if and only if some reachable regular file fails to hash |
| Tripwirs.VisitChildrenFailsIffHashFails | src/tripwirs.rs:119-124 | the entries of a directory fail if and only if one of the files beneath them fails to hash |
| Tripwirs.VisitErrorIsAHashError | src/tripwirs.rs:107-110 | the error a failed walk returns is the hash error of a reachable regular file |
| Tripwirs.VisitChildrenErrorIsAHashError | src/tripwirs.rs:119-124 | the same for the entries of a directory |
| Tripwirs.VisitSound | src/tripwirs.rs:107-129 | a walk removes no key, and every value it leaves is the old one or one a reachable item writes (a file's hash, D for an item-less directory) |
| Tripwirs.VisitChildrenSound | src/tripwirs.rs:119-124 | the same for the entries of a directory |
| Tripwirs.VisitComplete | src/tripwirs.rs:103-129 | a walk without error leaves every written path in the database, holding a value written there |
| Tripwirs.VisitChildrenComplete | src/tripwirs.rs:119-124 | the same for the entries of a directory |
| Tripwirs.OnlyBadEntriesRecordNothing | src/tripwirs.rs:117-129 | a directory whose iterator yields only errors is not recorded as D and changes nothing |
| Tripwirs.PushedIsReadableEntries | src/tripwirs.rs:119-124 | every readable entry is pushed under its joined path, nothing else is, and exactly as many items are pushed as there are readable entries |
| Tripwirs.PushChildren | src/tripwirs.rs:117-124 | the iterator loop appends the readable entries in order and counts every item, erroring ones included |
| Tripwirs.ScanPath | src/tripwirs.rs:95-133 | the stack-and-map loop leaves the database of the recursive traversal and returns the traversal's hash error, if any |
| Tripwirs.GenDb | src/tripwirs.rs:135-141 | gen_db succeeds and its database stays empty |

## Data model

| type | source | models |
|---|---|---|
| Crypto.CryptoError | src/crypto.rs:62-70 | the six error variants, without the payloads of IoError, EncodeError and DecodeError |
| Config.ActionType | src/config.rs:8-11 | the parser's mode, Scan or Ignore |
| Config.Config | src/config.rs:14-18 | the policy: scan roots as an ordered sequence with repeats, ignored paths as a set (the `secret` field is left out) |
| Tripwirs.NodeType | src/tripwirs.rs:90-93 | a database value: F with a 64-bit file hash, or D for a directory with no items |

## Left out

- src/main.rs (command line, passphrase prompt, exit codes) and src/fs_iter.rs (an unfinished iterator sketch with no behaviour) are not part of this model.
- The ChaCha20-Poly1305 cipher and the bincode codecs are function parameters (`Sealer`, `Opener`, `encode`, `decode`). Their behaviour is only assumed where a lemma says so: a cipher that appends a 16-byte tag and opens what it seals, and a decoder that inverts the encoder and ignores trailing tag bytes.
- `CryptoError` drops the payloads of its I/O, encode and decode variants.
- The `Disk` is a path-to-bytes map with a set of paths that cannot be created. A `write_all` that fails after `File::create` succeeded (leaving a truncated file) is not modelled.
- The policy's 192-byte `secret` and `gen_new_secret` (src/config.rs:15, 33-37) are left out: they draw from the thread RNG, and nothing modelled reads them.
- `get_config` (src/config.rs:80-82) is `ReadDecrypted` at the policy type; it has no separate member. The older `get_config` and the older `gen_config`'s file creation and write (src/tripwirs.rs:57-69) are plain file I/O, left out.
- `get_filehash` (src/tripwirs.rs:71-88) is XXH3 over a read loop. It is the `Hasher` parameter: an arbitrary function of path and content that may fail.
- Ignored paths are compared as strings. The source stores `PathBuf`s, whose equality compares path components (so "/etc/" and "/etc" are equal there).
- Paths are character strings, so the panic of `to_str().unwrap()` on a non-UTF-8 path is not modelled.
- The filesystem is a finite acyclic tree. A symlink cycle, which `is_file` and `read_dir` would follow without a practical bound, cannot be expressed.
- The `println!` of each recorded directory is output only, and left out.
- The `n_elems` counter is unbounded. The source's `i32` could only overflow after 2^31 items in one directory.
- The database holds owned strings as keys. The `&str` borrow at src/tripwirs.rs:98 would not type-check against the loop's temporaries. The duplicate `Path` import at src/tripwirs.rs:6-7 is ignored too.
- Crypto.SaveEncrypted: uses the corrected key derivation, so an empty passphrase returns CouldNotCreateKey; the source never returns there (see Findings).
- Crypto.ReadDecrypted: uses the corrected key derivation, so an empty passphrase returns CouldNotCreateKey; the source never returns there (see Findings).
- Config.GenConfig: saves through the corrected key derivation, so an empty passphrase returns CouldNotCreateKey; the source never returns there. Every failure of `File::open` or `read_line`, including a line that is not valid UTF-8, is one input value `None`: the model does not say after which line reading stopped.
- Crypto.EnvelopeRoundTrip: assumes the decoder ignores the 16 tag bytes that `open_in_place` leaves after the plaintext, as bincode's `decode_from_slice` ignores trailing bytes; the ring and bincode code is not part of this model.
- Crypto.ExtendLoop: the as-written extension loop is a function with a fuel bound, since a loop that may not end cannot be a total function. Non-termination is stated as "no fuel suffices".
- Tripwirs.VisitChildrenComplete: states that the surviving value at a path is one some reachable entry writes there, not which one. That the last write in traversal order wins is what `VisitChildren` itself computes.
- Tripwirs.VisitComplete: states that the surviving value at a path is one some reachable item writes there, not which one. That the last write in traversal order wins is what `Visit` itself computes.

## Findings

| source | as written | input that shows it | evidently intended | confidence | as-written member | corrected member |
|---|---|---|---|---|---|---|
| src/crypto.rs:43-54 | with an empty passphrase `orig_len` is 0, so every pass extends by 0 bytes and `s.len() != key_len` stays true forever | passphrase "" | the empty passphrase yields an empty key, which `UnboundKey::new` rejects with CouldNotCreateKey | not executed | Crypto.EmptyPassphraseLoopsForever | Crypto.GetCompatiblePassphrase |
| src/tripwirs.rs:39-44 | header arms compare against "[scan]" etc. without the newline that `read_line` keeps, so headers followed by more lines become scan entries | lines "[ignore]\n", "/tmp\n" | header lines switch the mode, as src/config.rs:54-59 does | not executed | Tripwirs.VariantsDiffer | Config.ParsePolicy |

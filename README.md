# HashSlingingSlasher file-integrity scanner, modelled in Dafny

`linuxHashing.go` walks a directory tree, takes the MD5 digest of every
entry that is not a directory and stores it in a MySQL table keyed by path, keeping one
previous generation (`oldHash`, `oldTime`) per row. This project models the
three pieces of sequential logic inside that program and proves what they
promise:

- **fileFunc** (`Walker.dfy`): for one path, given what `os.Stat`, `os.Open`
  and reading into MD5 answer, it sends one `fileHashInfo` record on the
  `files` channel, one tagged message (`FILE ERROR`, `OPEN ERROR`) on the
  `errors` channel, or nothing for a directory, and always returns nil so the
  walk goes on. The record carries `filepath.Ext(path)`, the `"--"` sentinel
  in `oldHash`/`oldTime`, and the `hex.EncodeToString` rendering of the
  16-byte digest (`HashInfo.dfy`), proved to be 32 lowercase hex characters
  that decode back to the digest.
- **toDB** (`Store.dfy`): the table is a map from `filePath` to its row; a
  lookup reports `NoRows`, `Found(row)` or `OtherErr`. With no row it returns
  the insert fragment `('path', 'ext', 'perms', 'hash', 'hashTime',
  'modified')`, built the way `fmt.Sprintf` fills its format, and proved to be
  readable back into the six values in column order whenever no value holds a
  single quote. Otherwise it updates the row at once, rotating `hash` and
  `hashTime` into `oldHash` and `oldTime`, touches no other row, reports a
  failed update once as `DB Update error`, and returns `""`.
- **The consumer loop of main** (`Persister.dfy`): a class with `count`,
  `insert`, the queued records, the table, the log of executed batch inserts and
  the error log. The pure functions `Step`, `Consume` and `Finish` specify one
  iteration, the loop and the final execution; the methods are proved to
  follow them, and the lemmas prove the batching invariant (`count` stays in
  `0..250`, equals the number of queued fragments, and the buffer is the
  prefix followed by exactly those fragments joined with `", "`), the flush
  points, and the exact number of executed inserts when every record is new.

Two behaviours of the code are modelled as written:

- On the iteration that finds `count == fileChanSize`, the received record is
  never passed to `toDB`: it is neither inserted nor updated
  (`FlushDropsRecord`). With only new files, one record in every 251 is lost
  this way (`AllNewFlushPoints`).
- A lookup error other than `sql.ErrNoRows` takes the update branch, with the
  empty strings `Scan` left behind written into `oldHash` and `oldTime`; the
  lookup error itself is not reported.

Further behaviour of the code that the model keeps: a failed lookup is
neither logged nor dropped (see above); the error returned by the batch insert
is discarded; messages read `FILE ERROR :::::: <cause> \n`,
`OPEN ERROR :::::: <cause> \n` and `DB Update error:::: <cause> \n`; and the
record that arrives on a full batch is lost.

## Model

| member | source | states |
|---|---|---|
| HashInfo.EncodeToString | linuxHashing.go:179 | the hash field has two characters per digest byte, all lowercase hex digits |
| HashInfo.DecodeEncode | linuxHashing.go:179 | decoding the hex rendering gives back exactly the digest bytes, so the hash field determines the digest |
| HashInfo.EncodeDecode | linuxHashing.go:179 | every even-length lowercase hex string is the rendering of the bytes it decodes to |
| HashInfo.DigestHex | linuxHashing.go:179 | the rendering of a 16-byte MD5 sum is exactly 32 lowercase hex characters and decodes to that sum |
| HashInfo.Ext | linuxHashing.go:182 | the extension is the suffix starting at the last '.' of the last path element, and "" exactly when that element has no '.' |
| Walker.Visit | linuxHashing.go:139-192 | a directory sends nothing, any other entry exactly one record or one message; stat and read failures are tagged FILE ERROR, open failures OPEN ERROR, with the cause; a record has the path, Ext(path), the stat mode and time, the clock reading, "--" for oldHash and oldTime, and a 32-character hex hash decoding to the digest |
| Walker.EveryEntryAccountedFor | linuxHashing.go:139-191 | over any sequence of visited entries, records plus messages equal the number of non-directory entries |
| Walker.Walker.constructor | linuxHashing.go:47-50 | both channels start empty |
| Walker.Walker.FileFunc | linuxHashing.go:139-192 | returns nil always and appends exactly the outcome of Visit to the files or errors channel |
| Store.QueryRow | linuxHashing.go:196-201 | the lookup reports no rows exactly when it does not fail and the path has no row, finds a row exactly when it does not fail and the path has one (and then it is the stored row), and a failing lookup carries its cause |
| Store.Fragment | linuxHashing.go:207-209 | the fragment opens with "('" and closes with "')" |
| Store.FragmentRoundTrip | linuxHashing.go:207-209 | the fragment holds path, extension, permissions, hash, hashTime and modified date in that order and reads back to exactly them when no value holds a quote |
| Store.NewRow | linuxHashing.go:106-108 | an inserted row is keyed by the record's path and has no oldHash or oldTime |
| Store.Update | linuxHashing.go:215-221 | the update writes oldHash/oldTime from the scanned values and the record's hash, hashTime, lastModified, extension and permissions into the row of that path, and no other row |
| Store.ToDBResult | linuxHashing.go:195-212 | a non-empty response exactly when the lookup reports no rows; that response is the record's fragment, with nothing written and nothing sent on the error channel |
| Store.UpdateBranch | linuxHashing.go:213-227 | when the lookup does not report no rows: the response is "", only the row of the path may change and no key appears or disappears, a failed update leaves the table alone and sends exactly one DB Update error, and a successful update of a stored row writes the record's hash, hashTime, lastModified, extension and permissions into it with oldHash/oldTime taken from the stored hash/hashTime, or empty after a failed lookup (the record is not dropped) |
| Store.InsertAll | linuxHashing.go:125 | the batch insert adds a row for every queued path and leaves every other row alone |
| Store.InsertedRowIsNew | linuxHashing.go:125 | a queued record not repeated later gets a NEW row with no previous hash |
| Store.KeyedPreserved | linuxHashing.go:195-229 | toDB and the batch insert keep every row under its own filePath |
| Store.SecondScanRotates | linuxHashing.go:205-221 | scanning a path twice: the first scan queues its fragment and inserts a row with no previous hash; the second rotates it so oldHash is the first hash and hash the second |
| Persister.Batch | linuxHashing.go:113-120 | the joined fragments are empty exactly when nothing is queued |
| Persister.BatchShape | linuxHashing.go:113-120 | a non-empty batch opens with the first fragment's "('" and closes with the last one's "')", so there is no leading or trailing separator |
| Persister.Begin | linuxHashing.go:105-108 | the loop starts with count 0 and the bare prefix, which satisfies the batching invariant |
| Persister.ExecInsert | linuxHashing.go:125 | an executed insert adds exactly the queued paths as keys, leaves every other row alone and gives each queued record that no later one repeats a NEW row with no previous hash; a failed insert changes nothing |
| Persister.StepKeepsInv | linuxHashing.go:110-129 | every iteration keeps count within 0..250, equal to the queued fragments, and the buffer equal to the prefix and those fragments joined with ", " |
| Persister.ConsumeKeepsInv | linuxHashing.go:110-130 | the whole loop keeps the batching invariant |
| Persister.QueueOnNew | linuxHashing.go:111-121 | below a full batch no batch insert is executed, the record goes through toDB, and count grows by one exactly when the lookup reports no rows, the fragment then being appended last |
| Persister.FlushDropsRecord | linuxHashing.go:122-129 | on a full batch exactly one execution of the buffer holding 250 fragments, then a reset; the outcome does not depend on the received record, which never reaches toDB |
| Persister.FinalFlushOnce | linuxHashing.go:131 | after the channel closes exactly one more execution, of the current buffer, the bare prefix when nothing is queued |
| Persister.StepOnUnseen | linuxHashing.go:110-129 | a record neither stored nor queued is queued below a full batch, and a full batch is executed and emptied |
| Persister.AllNewPrefix | linuxHashing.go:110-130 | with only new files, after k records count is k mod 251 and k div 251 inserts have been executed |
| Persister.AllNewFlushPoints | linuxHashing.go:105-131 | with only new files, the run executes n div 251 + 1 inserts and the last holds n mod 251 fragments |
| Persister.StepKeepsKeyed | linuxHashing.go:110-129 | an iteration keeps every row under its own filePath |
| Persister.ConsumeKeepsKeyed | linuxHashing.go:105-131 | the whole run keeps every row under its own filePath |
| Persister.Persister.constructor | linuxHashing.go:105-108 | a new consumer has count 0, the bare prefix, nothing executed and no errors |
| Persister.Persister.ToDB | linuxHashing.go:195-229 | returns the response and leaves the table and error log exactly as ToDBResult says |
| Persister.Persister.Exec | linuxHashing.go:125 | logs the buffer as executed and applies the queued rows as ExecInsert says |
| Persister.Persister.Receive | linuxHashing.go:111-129 | one loop iteration changes the state exactly as Step says and keeps the batching invariant |
| Persister.Persister.Run | linuxHashing.go:105-131 | the loop and the final execution leave the state Finish(Consume(...)) says, with the batching invariant holding |
| Persister.ScanTwice | linuxHashing.go:195-229 | two runs over one file against an empty table leave its row with the first run's hash and time as oldHash and oldTime and the second run's as hash and hashTime |

## Left out

- The MD5 computation (`md5.New`, `io.Copy`): a foreign library; the digest is an opaque 16-byte input.
- `filepath.Walk`, its traversal order and its root-level error, `os.Stat`, `os.Open` and `file.Close`: file-system I/O; each answer is an input of `Visit`, and a walk is a sequence of visited entries.
- `time.Now()` and the time layouts: the clock reading and the formatted modification time are opaque strings.
- The MySQL driver and SQL itself: the table is a map keyed by `filePath` (so two rows with one path cannot arise), the executed batch inserts are logged as text and never parsed, and the faults of a lookup, an update and a batch insert are inputs (`DbReply`), one per received record.
- The select and update statements of `toDB` (linuxHashing.go:196-198, 215-221): neither is rendered nor logged in `executed`; the lookup appears only as its `Lookup` answer, the update only as its effect on the table and its error in the error log.
- Escaping: the code quotes values without escaping them, and so does the model's statement text; `FragmentRoundTrip` is stated only for values without a single quote because that is where the fragment is unambiguous. The effect of a write is not derived from that text: with `insertOk` true, `ExecInsert` and `Update` store a value holding a quote in its intended row, as if it had been escaped, whereas the real statement would fail or be injected; the model reaches a failed statement only through the fault inputs.
- Duplicate paths in one batch: `InsertAll` lets the later record win and overwrites a row already stored under that path, whereas MySQL would reject the whole statement on a unique key or add a second row; within one walk paths are distinct, so this does not arise.
- Goroutines, the blocking of the `files` channel, `done`, and the log-writer goroutine with its file: concurrency and I/O. The channels are sequences; the `errors` channel is one log per producer (`Walker.errors`, `Persister.errors`), so the interleaving of the two producers' messages is not modelled.
- Start-up: opening the database and the log file, and their failure paths (linuxHashing.go:61-75), `runtime.GOMAXPROCS`, the unused `numOfDrives` and `numOfFiles`, the `fmt.Println` calls and the shared `err` variable. When the log file cannot be created, the log goroutine closes `errors` at once (linuxHashing.go:70-85), so the first message `fileFunc` or `toDB` sends panics and ends the scan; the model's error logs accept every message.
- The table name: it comes from `dbInfo.go`, which is not part of this model; it is a parameter.
- HashInfo.DecodeString: the two errors of `hex.DecodeString` (odd length, invalid byte) are one `None`; it serves only as the inverse of the encoding.
- HashInfo.Ext: only `/` is a separator, as on the Unix systems this file targets.

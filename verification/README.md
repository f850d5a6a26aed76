# SecGit: a verified model

SecGit is a confidential git forge. This project models the parts of it that carry the hardest
promises, and proves those promises for all inputs and all runs:

- **Audit log.** The Merkle tree of RFC 6962 (sections 2.1, 2.1.1 and 2.1.2) with the verifiers of
  RFC 9162 (sections 2.1.3.2 and 2.1.4.2), and the transparency log built on it: a hash chain in
  an append-only file. Modules `MerkleTrees`, `MerkleTurns`, `Merkle`, `AuditHashing`,
  `AuditLog`.
- **Sealing.** Incremental sealing of a git repository into the encrypted store, and restoring it.
  Modules `StoreKeys`, `GitSeal`.
- **XML.** The parser and Exclusive XML Canonicalization 1.0 (section 3), with the enveloped-signature
  transform (section 6.6.4 of XML Signature). Modules `XmlText`, `XmlTree`, `XmlCanon`,
  `XmlSpelling`, `XmlCanonical`, `XmlNesting`, `XmlEnvelope`, `XmlParser`, `XmlSerializer`.
- **Rate limiter**, **code search**, **identity directory** and **replay guard**: each against the
  simpler thing it must agree with. Modules `RateLimiter`, `RateBound`, `RateExact`; `SearchText`, `SearchIndex`;
  `Identity`, `PersistentDirectory`; `ReplayGuard`.
- **Civil dates.** The day count and the two readers of UTC instants. Module `CivilDate`.

`Wrappers`, `Lists`, `Distinct` and `Trimming` are shared helpers. `dafny verify dfyconfig.toml`
checks the whole project.

## How the model is set up

**Hashes.** Nothing is assumed about SHA-256. Soundness results say: the claim holds, or two different
inputs *that the computations at hand actually hashed* have the same hash. Each such result takes a set
that contains those inputs (`RootWithin`, `InclusionWithin`, `ConsistencyWithin`, `EntriesWithin`), since
over 32-byte values a bare "some collision exists" would always be true. `AuditHashing` shows that
the bytes fed to the hash determine the entry, leaf or pair, so every such collision is one of SHA-256.

**Merkle walks.** The provers split a tree from the top, the verifiers climb from the bottom over the
bits of an index. The way between root and leaf is a list of turns. `MerkleTrees` settles what a walk along
given turns accepts, over plain binary trees, and that climbing is the walk from the top read backwards
(`ClimbIsTreeWalk`, `BeginIsTreeBegin`). `MerkleTurns` shows that the splits and the bits give the same
turns, read in opposite directions (`UpTurnsAreTurns`, `BeginTurnsAreTurns`). `index ^ (size - 1)`, its bit
length and the shifts are written as repeated halving (`Half`, `Odd`, `Xor`, `BitLength`, `Shr`).

**Audit records.** A file is a list of lines, of which the last may lack its newline; `WriteIsAppend` shows
that writing to it is appending to the contents it was read from. The record encoding (plain JSON, or
JSON sealed under the at-rest key with the line number as associated data) is a parameter. It must read
back what was written, never read a record at another line number as a different record, pass over white
space in front of a record (only the four white-space characters of JSON if the log is not sealed), and
refuse part of a record and a line on which a record follows a record.

**Git.** Objects are ids with an immutable link function; a repository is a set of objects, a ref map and
a HEAD. A bundle holds the objects reachable from the refs and not from the excluded ids, and refuses
to be empty; unbundling needs every prerequisite present with all it reaches. `clone --bare` copies
branches and tags. Between seals the repository may become any well-formed one, which
covers ref changes, new objects and pruning. The list of tips is a map, so its order is not modelled.

**XML text.** Text is ASCII and kept as linked lists of characters, printed with a continuation: `Put(x, post)` is x
followed by post. `Parser` and `Serialize` are the cursor and output-string loops of the source, proved
equal to the recursive definitions that the theorems are about. A namespace-well-formed element is one
whose names the parser can read back (`Good`) and that never undeclares a prefix (`Plain`).

Two modules say from outside what the parser reads and what the canonicalizer writes. `XmlSpelling` has its own
types for a written document, down to the digits of a character reference, with a writer and a meaning that do
not mention the parser. A tab or line feed written in an attribute value means itself, as the code has it; XML 1.0
(section 3.3.3) would make it a space. `XmlNesting` is a scanner that reads characters one at a time and keeps a
stack of names; it does not mention trees or the printer.

**Limiter.** Time and tokens are reals. The product of time and rate is kept behind `Config.gain`, which
`Valid` fixes to be `elapsed * refill`; so `c.gain(c.idle) >= c.capacity` reads "idle time times refill
is at least the capacity". The clock is read before the lock is taken; a run is the order in which the
lock is taken.

**Directory.** The four maps of the directory are one map keyed by kind and id. The search index, the
directory and the sealed state are maps from keys; the lemmas `KeyStringInjective` show that the key
strings keep them apart.

**Where the documentation differs from the code.** The store's description of the legacy bundle key says
the forge treats a legacy bundle as segment 0 when it migrates a repository. The code writes a fresh base
and drops the legacy bundle, and so does the model. The replay guard's description says that a nonce
accepted within the retention window cannot be reused, across restarts. The code does not notice when its
file cannot be written or read, and evidence whose timestamp lies in the future outlives the window;
`RecursExactlyWhenNotHeld` and `BlindReopenForgets` say exactly when a request is accepted twice.

## Results worth knowing

Some expected properties turn out to hold only under a condition, which is proved to be exact:

- After an append an audit log opens again exactly when the file it was opened from has one line per entry,
  or one unterminated line more that holds nothing but white space the record reader passes over
  (`AuditLog.AppendThenLoad`). A run fails exactly when a record is written to a file that cannot take it
  and the log is then opened again; besides blank lines, an append that stops before its newline brings
  that about (`AuditLog.RunFailsExactly`, `BlankLineLocksTheLog`, `TornAppendLocksTheLog`, and
  `OpenBlankLineIsHarmless` for the other side). An append that stops within its record leaves a file that
  does not open (`AuditLog.CutAppendLocksTheLog`).
- A compaction that stops partway loses the sealed state while the old segments are being deleted. Once the
  new base is stored under the old manifest, the old refs can be restored exactly if no later segment
  had a payload and the new base holds all of them (`GitSeal.InterruptedCompaction`). A later seal repairs
  the store unless refs and HEAD are still the old ones: then it reports success and changes nothing
  (`GitSeal.SealAfterStop`).
- Eviction of idle buckets is unobservable exactly when an idle bucket has time to fill
  (`RateLimiter.UnobservableExactlyWhenIdleFills`), and only then is a key allowed no more than capacity
  plus refill in every interval (`RateBound.BoundedExactlyWhenIdleFills`). Then the limiter allows exactly the
  checks that keep to that bound and find room in the table (`RateExact.AllowedExactlyWhenItFits`).
- As long as the guard never reopens without being able to read its file, a request just accepted can be
  accepted again exactly when its record was not saved, or its timestamp was in the future and the clock
  can still pass the window (`ReplayGuard.RecursExactlyWhenLostOrFromTheFuture`). After a reopening that
  cannot read the file every request can (`ReplayGuard.BlindReopenForgets`).
- The order in which attributes are written never shows in the canonical bytes exactly when no two of them
  have the same namespace URI and local name (`XmlCanonical.OrderIsHiddenExactly`). The prefix `xml` is never
  bound, so `lang` and `xml:lang` tie, and their order shows (`XmlCanonical.XmlLangShows`).
- A comment is skipped whole exactly when it starts neither with `>` nor with `->`
  (`XmlSpelling.CommentSkippedExactly`): the search for its end begins at its opening. What is left of such a
  comment is read as content (`XmlSpelling.EarlyCloseLeavesText`).

A seal fails exactly when a full base is due and the repository has no refs (`GitSeal.SealHolds`), and two
elements have the same canonical bytes exactly when they differ only in the order of attributes that do not
tie, in where namespaces are declared and in how text is broken up
(`XmlCanonical.SameBytesExactlyWhenEquivalent`).

## Model

| member | source | states |
|---|---|---|
| `MerkleTurns.LargestPow2Lt` | crates/secgit-audit/src/merkle.rs:28-35 | the loop returns a power of two k with k < n <= 2k |
| `MerkleTurns.UpTurnsAreTurns` | crates/secgit-audit/src/merkle.rs:75-104 | the turns read off the bits of an index are those of the provers' splits, backwards, for every tree size |
| `MerkleTurns.BeginTurnsAreTurns` | crates/secgit-audit/src/merkle.rs:140-192 | the same for the consistency climb, which first skips the full levels of the old tree |
| `MerkleTrees.ClimbIsTreeWalk` | crates/secgit-audit/src/merkle.rs:75-104 | climbing along turns is the top-down walk along them read backwards, for every proof |
| `MerkleTrees.BeginIsTreeBegin` | crates/secgit-audit/src/merkle.rs:140-192 | the climb that carries both roots, seeded by the old root or the first element, is the top-down walk |
| `Merkle.VerifyInclusion` | crates/secgit-audit/src/merkle.rs:75-104 | the two loops, with their length check, accept exactly the proofs whose top-down walk ends in the expected root |
| `Merkle.ClimbInner` | crates/secgit-audit/src/merkle.rs:90-98 | the inner loop leaves the climb unchanged: what remains is the climb from the level where index and last index meet |
| `Merkle.ClimbBorder` | crates/secgit-audit/src/merkle.rs:99-102 | the border loop joins every remaining element from the left |
| `Merkle.InclusionPlan` | crates/secgit-audit/src/merkle.rs:85-89 | inner + border is exactly the number of elements a walk uses up: any other length is rejected |
| `Merkle.InclusionComplete` | crates/secgit-audit/src/merkle.rs:50-110 | for every tree size and index the recursive proof has inner + border elements and is accepted |
| `Merkle.InclusionSound` | crates/secgit-audit/src/merkle.rs:75-110 | an accepted leaf is the leaf at that index and the proof is the honest one, or two of the hashed pairs collide |
| `Merkle.VerifyConsistency` | crates/secgit-audit/src/merkle.rs:140-192 | the loop that folds both roots accepts exactly the proofs whose top-down walk ends in both roots |
| `Merkle.ConsistencyComplete` | crates/secgit-audit/src/merkle.rs:113-192 | for every leaf list and 0 < m <= n the recursive proof is accepted and used up exactly |
| `Merkle.ConsistencyPinsRoot` | crates/secgit-audit/src/merkle.rs:140-192 | whatever old root and proof are accepted against the root of ys, the old root is that of the first m leaves of ys and the proof is the honest one, or two hashed pairs collide |
| `Merkle.ConsistencySound` | crates/secgit-audit/src/merkle.rs:140-192 | whatever the proof, if the roots of xs and ys are accepted then xs is a prefix of ys and the proof is the honest one, or two hashed pairs collide |
| `MerkleTrees.WalkSound` | crates/secgit-audit/src/merkle.rs:75-104 | a walk that ends in a tree's hash starts at the leaf that is there and goes along its siblings, absent a collision |
| `MerkleTrees.BeginSound` | crates/secgit-audit/src/merkle.rs:140-192 | a walk that ends in the hash of a tree goes along its honest witnesses and carries up the hash of the tree's prefix, whatever it started from, absent a collision |
| `Merkle.RootAtAgrees` | crates/secgit-audit/src/merkle.rs:38-47 | a root depends only on the leaves under it |
| `Merkle.RootInjective` | crates/secgit-audit/src/merkle.rs:38-47 | equal roots of equally many leaves mean equal leaves, unless two hashed pairs collide |
| `Merkle.RootIsRfc6962` | crates/secgit-audit/src/merkle.rs:38-47 | over leaf hashes the root is the empty hash, the leaf, or the node hash of the roots of the two slices cut at the power of two k with k < n <= 2k |
| `AuditHashing.EntryPreimageInjective` | crates/secgit-audit/src/lib.rs:94-102 | the hashed bytes of an entry determine its number, time, previous hash and event |
| `AuditHashing.NodePreimageInjective` | crates/secgit-audit/src/merkle.rs:19-25 | the hashed bytes of a node determine its children |
| `AuditHashing.LeafPreimageInjective` | crates/secgit-audit/src/merkle.rs:12-17 | the hashed bytes of a leaf determine the entry hash |
| `AuditHashing.SignedBytesInjective` | crates/secgit-audit/src/lib.rs:117-126 | the signed bytes of a checkpoint determine its log id, size, root and time |
| `AuditHashing.EntryLayout` | crates/secgit-audit/src/lib.rs:94-102 | an entry is hashed as its domain text, number and timestamp as eight bytes with the least significant first, the previous hash and the event, each at its offset |
| `AuditHashing.TreeLayout` | crates/secgit-audit/src/merkle.rs:12-25 | a leaf is hashed as a zero byte and the entry hash, a node as a one byte, the left and the right hash |
| `AuditHashing.SignedLayout` | crates/secgit-audit/src/lib.rs:117-126 | a checkpoint is signed as its domain text, log id, a zero byte, size, root and timestamp, each at its offset |
| `AuditHashing.DomainsApart` | crates/secgit-audit/src/merkle.rs:12-25 | entries, leaves and nodes never feed the same bytes to the hash |
| `AuditHashing.CollisionsAreSha` | crates/secgit-audit/src/merkle.rs:12-25 | a collision of entries, leaves or nodes is a collision of SHA-256 between byte strings that were hashed |
| `AuditLog.LoadedIsChained` | crates/secgit-audit/src/lib.rs:251-278 | whatever a file loads as, each entry commits to the one before it, starting at the genesis value |
| `AuditLog.LoadsExactly` | crates/secgit-audit/src/lib.rs:251-278 | a file loads as given entries if and only if they are the records of its lines that are not blank, in order, each with its line's number and chained to the one before |
| `AuditLog.WriteIsAppend` | crates/secgit-audit/src/lib.rs:254-320 | a record written at the end of a file, behind a last line without newline or on a line of its own, is appended to the contents that the lines were read from |
| `AuditLog.AppendThenLoad` | crates/secgit-audit/src/lib.rs:251-326 | after an append the file loads, as the old entries and the new one, if and only if it could take the record: one line per entry, or one more that is unterminated white space; without its newline it takes no further record |
| `AuditLog.TransparencyLog.constructor` | crates/secgit-audit/src/lib.rs:193-201 | the log object starts with no entries, and leaves in step |
| `AuditLog.TransparencyLog.Open` | crates/secgit-audit/src/lib.rs:187-208 | a log opens with the entries its file loads as, empty if there is no file, and fails exactly as loading does |
| `AuditLog.TransparencyLog.Load` | crates/secgit-audit/src/lib.rs:251-278 | the loop loads the entries of the file with their leaf hashes, or reports the first bad record |
| `AuditLog.TransparencyLog.Append` | crates/secgit-audit/src/lib.rs:294-326 | the entry has the event and time it was given, the next number, the last entry's hash and the hash of all these; entry, leaf and record are added together, the record at the end of the file |
| `AuditLog.TransparencyLog.MakeCheckpoint` | crates/secgit-audit/src/lib.rs:329-343 | a checkpoint carries the log id, the time, the number of entries and the root of their leaf hashes, signed together |
| `AuditLog.TransparencyLog.ProveInclusion` | crates/secgit-audit/src/lib.rs:349-354 | there is a proof for exactly the indices in range, and the verifier accepts it |
| `AuditLog.TransparencyLog.ProveConsistency` | crates/secgit-audit/src/lib.rs:357-362 | there is a proof for exactly the sizes from 1 to the current one, and the verifier accepts it |
| `AuditLog.RunStaysInStep` | crates/secgit-audit/src/lib.rs:223-326 | in every run of appends, torn appends and reopenings the file reads back as the entries in memory or not at all, and earlier entries stay in place; whether it fails depends only on the operations and on whether the file could take a record at first |
| `AuditLog.EveryAppendIsRecorded` | crates/secgit-audit/src/lib.rs:294-326 | along any run that does not fail, the entries are those at its start followed by one per append, in order, with that append's event and time, the next number and the hash of the one before |
| `AuditLog.RunFailsExactly` | crates/secgit-audit/src/lib.rs:187-326 | from any file that loads, a run fails if and only if a record is written to a file that cannot take it, from the start or after a torn append, and the log is opened after that |
| `AuditLog.BlankLineLocksTheLog` | crates/secgit-audit/src/lib.rs:251-326 | a file of one empty line opens, takes an entry, and does not open again |
| `AuditLog.TornAppendLocksTheLog` | crates/secgit-audit/src/lib.rs:251-326 | a new log whose first append stopped before its newline has no blank line, opens, takes an entry, and does not open again |
| `AuditLog.CutAppendLocksTheLog` | crates/secgit-audit/src/lib.rs:251-326 | whatever file the log was opened from, an append of which only a part is written leaves a file that does not open |
| `AuditLog.OpenBlankLineIsHarmless` | crates/secgit-audit/src/lib.rs:251-326 | a file of one space without newline opens, takes an entry, and opens again |
| `AuditLog.EveryCheckpointStaysProvable` | crates/secgit-audit/src/lib.rs:187-362 | from any file that loads, after any run that does not fail, the consistency proof from any earlier nonzero size verifies that size's root against the current one; no run fails if the file can take a record and no append is torn |
| `AuditLog.TamperEvident` | crates/secgit-audit/src/lib.rs:251-278 | two files that load and end in the same hash hold the same entries, unless hashed entries collide or one hashes to the genesis value |
| `AuditLog.AcceptedHistoryIsExtended` | crates/secgit-audit/src/lib.rs:223-362 | an accepted consistency proof between two chains means the first is a prefix of the second, entry by entry, unless a hash collides |
| `StoreKeys.KeyStringInjective` | crates/secgit-store/src/lib.rs:43-57 | manifest, legacy bundle and every segment are stored under different keys |
| `StoreKeys.SegmentKeyIs` | crates/secgit-store/src/lib.rs:55-57 | a segment's key is bundle/ and its index in decimal, with at least eight digits and no zero in front of more |
| `GitSeal.ReachIsPaths` | crates/secgit-forge/src/lib.rs:652-685 | the objects listed from a set of ids are exactly those some chain of links leads to |
| `GitSeal.EmptyBundle` | crates/secgit-forge/src/lib.rs:652-672 | a full bundle is empty, and refused, exactly when there are no refs |
| `GitSeal.BaseIsRestorable` | crates/secgit-forge/src/lib.rs:578-598 | a base segment alone restores to a closed set with all tips |
| `GitSeal.ExcludedIsSealed` | crates/secgit-forge/src/lib.rs:614-649 | what a delta leaves out is already sealed, and its prerequisites are among the sealed objects |
| `GitSeal.DeltaIsRestorable` | crates/secgit-forge/src/lib.rs:614-649 | a delta, with payload or without, never fails and keeps the segments restorable to the new tips |
| `GitSeal.DeltaIsIncremental` | crates/secgit-forge/src/lib.rs:614-649 | a delta's pack holds exactly the objects reachable from the refs and from no old tip that is still there, and there is no payload if and only if there are none |
| `GitSeal.SealHolds` | crates/secgit-forge/src/lib.rs:395-427 | a seal makes the store hold the refs and HEAD of the repository; it fails if and only if a base is due and there are no refs |
| `GitSeal.SealAgainChangesNothing` | crates/secgit-forge/src/lib.rs:395-427 | sealing the same repository again changes nothing, and a seal that writes leaves no legacy bundle |
| `GitSeal.RestoreIsFaithful` | crates/secgit-forge/src/lib.rs:452-499 | restore finds every prerequisite and gives exactly the sealed refs, with every object they reach, and the sealed HEAD, or git's default if none was sealed |
| `GitSeal.LegacyRestores` | crates/secgit-forge/src/lib.rs:452-526 | a store with no manifest but a full bundle of a repository restores to its HEAD and exactly its branches and tags, with every object its refs reach |
| `GitSeal.NothingSealedExactly` | crates/secgit-forge/src/lib.rs:452-526 | restore reports that nothing is sealed if and only if the store has neither a manifest nor a legacy bundle |
| `GitSeal.InterruptedKeeps` | crates/secgit-forge/src/lib.rs:614-649 | stopping a seal between the segment and the manifest leaves the previous sealed state restorable, unless it is a compaction |
| `GitSeal.RunTracks` | crates/secgit-forge/src/lib.rs:395-499 | over every run of seals and of such interrupted seals the store holds what was last sealed |
| `GitSeal.SealThenRestore` | crates/secgit-forge/src/lib.rs:395-693 | from any store without a manifest, after any such run restore gives the last sealed refs and HEAD and all they reach |
| `GitSeal.SealKeepsExact` | crates/secgit-forge/src/lib.rs:406-425 | after a seal segment i has index i, there are at most max_segments, and the stored segments are exactly the payloads |
| `GitSeal.RunKeepsExact` | crates/secgit-forge/src/lib.rs:395-427 | that bookkeeping is exact after every run of uninterrupted seals |
| `GitSeal.SealedSizeIsStored` | crates/secgit-forge/src/lib.rs:434-444 | the reported size is the sum of the lengths of all stored segments; without a manifest, the length of the legacy bundle, or 0 |
| `GitSeal.InterruptedCompaction` | crates/secgit-forge/src/lib.rs:395-427 | for every point at which a compaction can stop: before it the old state, during the deletions nothing, after the manifest write the new state, and in between the old refs if and only if only the base had a payload and the new base has all of them |
| `GitSeal.StoppedBeforeManifest` | crates/secgit-forge/src/lib.rs:578-598 | the stop between the new base and the manifest: when the old refs can be restored, and that they come back with all they reach |
| `GitSeal.SealAfterStop` | crates/secgit-forge/src/lib.rs:395-427 | the seal after a compaction that stopped before its manifest: with the old refs and HEAD it reports success and changes nothing, with no refs it fails, with any others the store holds them afterwards |
| `GitSeal.Forge.constructor` | crates/secgit-forge/src/lib.rs:171-182 | a forge starts with the given working copy and store |
| `GitSeal.Forge.ExistingOids` | crates/secgit-forge/src/lib.rs:688-693 | the ids that are still in the repository, no more and no fewer |
| `GitSeal.Forge.WriteBaseSegment` | crates/secgit-forge/src/lib.rs:578-598 | the loop drops all recorded segments and stores one full bundle; on a refusal nothing changes |
| `GitSeal.Forge.AppendDeltaSegment` | crates/secgit-forge/src/lib.rs:614-649 | one segment more, stored only if there are new objects |
| `GitSeal.Forge.SealToStore` | crates/secgit-forge/src/lib.rs:395-427 | the store afterwards is the one the theorems speak about; a failed seal leaves it alone |
| `GitSeal.Forge.RestoreFromStore` | crates/secgit-forge/src/lib.rs:452-526 | the loops over segments and tips restore the repository the theorems speak about; an error leaves the old working copy if the manifest is unreadable, none if a legacy bundle does not clone, and otherwise the part restored so far |
| `XmlText.DecodeEscaped` | crates/secgit-sso/src/xml.rs:301-340 | decoding undoes both escapes, whatever follows |
| `XmlText.TakeUntilEscaped` | crates/secgit-sso/src/xml.rs:552-580 | escaped text holds no `<` and an escaped attribute value no quote |
| `XmlTree.ParsePrinted` | crates/secgit-sso/src/xml.rs:110-299 | parsing a printed element gives it back, with adjacent text merged |
| `XmlTree.PrintMerged` | crates/secgit-sso/src/xml.rs:512-519 | merging adjacent text does not change what is printed |
| `XmlSpelling.PieceIsDecoded` | crates/secgit-sso/src/xml.rs:301-340 | a character written as it is, by one of the five names, or by its decimal or hexadecimal number with any leading zeros and either case, is decoded to that character |
| `XmlSpelling.NoSemicolonIsPlain` | crates/secgit-sso/src/xml.rs:301-340 | text without a semicolon stands for itself, ampersands included |
| `XmlSpelling.ItemsAreRead` | crates/secgit-sso/src/xml.rs:199-254 | declarations and attributes in any mixture, layout and quotes are read as written, each kind in its order |
| `XmlSpelling.WrittenIsRead` | crates/secgit-sso/src/xml.rs:190-298 | every written element is read up to its end and as what it means with text joined: closed in its tag or by an end tag, with references, comments, CDATA sections and elements inside |
| `XmlSpelling.CommentSkippedExactly` | crates/secgit-sso/src/xml.rs:268-270 | a comment that XML allows is skipped whole if and only if it starts neither with > nor with -> |
| `XmlSpelling.EarlyCloseLeavesText` | crates/secgit-sso/src/xml.rs:268-270 | an element that holds only the comment of one > is read with text in it |
| `XmlSpelling.PrologIsSkipped` | crates/secgit-sso/src/xml.rs:142-158 | white space, processing instructions and comments before the root are skipped |
| `XmlSpelling.SpellingIsRead` | crates/secgit-sso/src/xml.rs:110-299 | whatever element a text is a way to write, with a prolog before it and anything after it, the parser reads, up to the joining of text |
| `XmlSpelling.SpellingIsUnambiguous` | crates/secgit-sso/src/xml.rs:110-299 | a text is a way to write at most one element, up to the joining of text |
| `XmlSpelling.DoctypeIsRefused` | crates/secgit-sso/src/xml.rs:151-153 | a declaration other than a comment before the root makes the parser fail |
| `XmlParser.DecodeEntities` | crates/secgit-sso/src/xml.rs:301-340 | the decoding loop computes the recursive decoding |
| `XmlParser.Parser.constructor` | crates/secgit-sso/src/xml.rs:110-118 | the cursor starts at the beginning of the input |
| `XmlParser.Parser.SkipWs` | crates/secgit-sso/src/xml.rs:132-140 | the cursor stops at the first character that is not white space |
| `XmlParser.Parser.SkipPrologAt` | crates/secgit-sso/src/xml.rs:142-158 | declarations and comments are passed, a DTD is refused |
| `XmlParser.Parser.Position` | crates/secgit-sso/src/xml.rs:160-166 | the first occurrence at or after the cursor, with the text before it, or none |
| `XmlParser.Parser.ParseName` | crates/secgit-sso/src/xml.rs:168-188 | the longest name at the cursor, split at its first colon |
| `XmlParser.Parser.QuotedValue` | crates/secgit-sso/src/xml.rs:228-239 | the decoded value up to the matching quote |
| `XmlParser.Parser.ParseAttribute` | crates/secgit-sso/src/xml.rs:220-239 | name, equals sign and value are read as the recursive parser reads them, errors included |
| `XmlParser.Parser.ParseAttributes` | crates/secgit-sso/src/xml.rs:199-254 | the tag loop collects declarations and attributes in order, as the recursive parser does |
| `XmlParser.Parser.ParseElementAt` | crates/secgit-sso/src/xml.rs:190-298 | the cursor parser reads exactly the element, or fails exactly when, the recursive parser does |
| `XmlParser.Parser.ParseChildren` | crates/secgit-sso/src/xml.rs:257-289 | the child loop reads end tags, comments, CDATA, elements and text as the recursive parser does |
| `XmlParser.Parser.CloseTag` | crates/secgit-sso/src/xml.rs:259-267 | an end tag ends the children; its name is not compared |
| `XmlParser.Parser.CdataSection` | crates/secgit-sso/src/xml.rs:271-276 | the text of a CDATA section, taken literally |
| `XmlParser.Parser.CharacterData` | crates/secgit-sso/src/xml.rs:281-288 | the decoded text up to the next markup |
| `XmlParser.ParseDocument` | crates/secgit-sso/src/xml.rs:110-118 | parsing a document is the recursive parser on its characters, and gives every element the document is a way to write |
| `XmlCanon.DeclarationsAreSorted` | crates/secgit-sso/src/xml.rs:447-474 | rendered declarations are in strictly ascending order of prefix, the default namespace first |
| `XmlCanon.DeclaresExactly` | crates/secgit-sso/src/xml.rs:434-473 | a declaration is rendered if and only if its prefix is the element's, an attribute's or an inclusive one, its URI is the one in scope and not the one rendered outside, and it is not an undeclared prefix |
| `XmlCanon.LtIsLexicographic` | crates/secgit-sso/src/xml.rs:474 | strings are compared at the first character in which they differ, and a proper beginning comes first |
| `XmlCanon.SortIsSorted` | crates/secgit-sso/src/xml.rs:486-502 | attributes are ordered by namespace URI and local name |
| `XmlCanon.SortIsByUriThenName` | crates/secgit-sso/src/xml.rs:486-502 | of two sorted attributes the later has the greater URI, or the same and a local name that is not smaller |
| `XmlCanon.SortProperties` | crates/secgit-sso/src/xml.rs:486-502 | sorting keeps the multiset of attributes |
| `XmlCanon.RenderedAgrees` | crates/secgit-sso/src/xml.rs:447-473 | after each start tag the rendered declarations alone give every utilized prefix its binding |
| `XmlCanon.CanonicalizationIsIdempotent` | crates/secgit-sso/src/xml.rs:110-520 | the canonical form parses, and canonicalizing the parsed element on its own gives the same bytes |
| `XmlCanon.CanonicalizationKeepsMeaning` | crates/secgit-sso/src/xml.rs:110-520 | re-parsing the canonical form gives the same expanded names, attributes and merged text |
| `XmlCanon.CanonicalizationIgnoresContext` | crates/secgit-sso/src/xml.rs:370-520 | inherited scopes that agree on the used and the inclusive prefixes give the same bytes |
| `XmlCanonical.CanonIsCanonical` | crates/secgit-sso/src/xml.rs:416-520 | under its own declarations the output declares, in order, only utilized prefixes whose binding changes, and sorts its attributes |
| `XmlCanonical.FixedExactlyWhenCanonical` | crates/secgit-sso/src/xml.rs:416-520 | the trees that canonicalization leaves alone are exactly those |
| `XmlCanonical.SortIgnoresOrder` | crates/secgit-sso/src/xml.rs:486-502 | attributes without ties sort alike in whatever order they were written |
| `XmlCanonical.SortsAlikeExactly` | crates/secgit-sso/src/xml.rs:486-502 | two attribute lists sort alike if and only if they hold the same attributes, those that tie in the same order |
| `XmlCanonical.OrderIsHiddenExactly` | crates/secgit-sso/src/xml.rs:486-502 | all orders of a list of attributes sort alike if and only if no two different ones have the same URI and local name |
| `XmlCanonical.XmlLangShows` | crates/secgit-sso/src/xml.rs:486-502 | an element with lang and xml:lang has different canonical bytes when the two are swapped |
| `XmlCanonical.EquivalentShareBytes` | crates/secgit-sso/src/xml.rs:370-520 | elements that differ only in the order of attributes that do not tie and in how and where namespaces are declared have the same canonical bytes |
| `XmlCanonical.BytesPinMeaning` | crates/secgit-sso/src/xml.rs:370-520 | elements with the same canonical bytes have the same expanded names, attributes and merged text |
| `XmlCanonical.SameBytesExactlyWhenEquivalent` | crates/secgit-sso/src/xml.rs:110-520 | two elements have the same canonical bytes if and only if, with text merged, they have the same names, the same attributes with ties in the same order, and the same bindings for the utilized prefixes |
| `XmlNesting.PrintedIsWellNested` | crates/secgit-sso/src/xml.rs:416-580 | a scanner with a stack of open tags, which knows neither trees nor the printer, accepts what is printed |
| `XmlNesting.CanonTextIsWellNested` | crates/secgit-sso/src/xml.rs:370-580 | the canonical text is one element in which every end tag carries the name of its start tag, declarations come before attributes, one space before each, values in double quotes, and text and values hold no raw character that Canonical XML escapes and no other reference |
| `XmlEnvelope.SigningKeepsCanonicalForm` | crates/secgit-sso/src/xml.rs:529-550 | inserting Signature elements anywhere below a Signature-free element, also inside text, leaves the enveloped canonical form as it was |
| `XmlEnvelope.StripIsUnsigned` | crates/secgit-sso/src/xml.rs:538-550 | stripping leaves no Signature below the root, and the element is its stripped form with signatures inserted |
| `XmlEnvelope.FindIsFirst` | crates/secgit-sso/src/xml.rs:383-414 | the search finds the first match in document order, with the scope its ancestors give it |
| `XmlEnvelope.FoundKeepsMeaning` | crates/secgit-sso/src/xml.rs:383-414 | canonicalizing the element found, with that scope, keeps the meaning of that element, which is part of the meaning of the document |
| `XmlSerializer.PushEscaped` | crates/secgit-sso/src/xml.rs:552-580 | the escape loops append the escaped text |
| `XmlSerializer.InScope` | crates/secgit-sso/src/xml.rs:423-432 | the loop applies all declarations, the last of a prefix winning |
| `XmlSerializer.VisiblyUtilized` | crates/secgit-sso/src/xml.rs:434-445 | the loops collect the element's, the attributes' and the inclusive prefixes in order |
| `XmlSerializer.Declarations` | crates/secgit-sso/src/xml.rs:447-473 | the loop emits and renders exactly the declarations the canonical tree has |
| `XmlSerializer.Serialize` | crates/secgit-sso/src/xml.rs:416-520 | the output grows by exactly the printed canonical tree, whatever follows |
| `XmlSerializer.ExcC14nScoped` | crates/secgit-sso/src/xml.rs:370-379 | the output is the canonical text that the theorems are about, and the scanner accepts it |
| `RateLimiter.Limiter.constructor` | bins/secgit-server/src/ratelimit.rs:33-44 | capacity, refill and table size are raised to their minimums, and the table is empty |
| `RateLimiter.Limiter.CheckKey` | bins/secgit-server/src/ratelimit.rs:47-87 | sweep, room for a new key and token are the transition the theorems are about |
| `RateLimiter.Limiter.TakeToken` | bins/secgit-server/src/ratelimit.rs:72-86 | a bucket is refilled up to its capacity and gives a token if it holds one |
| `RateLimiter.TableIsBounded` | bins/secgit-server/src/ratelimit.rs:60-70 | no run makes the table exceed max_keys, whatever the clock does |
| `RateLimiter.FullExactlyWhenBusy` | bins/secgit-server/src/ratelimit.rs:47-87 | after any run, a check is refused for a full table if and only if max_keys other keys were served within the idle time |
| `RateLimiter.RunAgrees` | bins/secgit-server/src/ratelimit.rs:47-87 | if idle time fills a bucket, every check that is not a full-table refusal answers as an eviction-free bucket would |
| `RateLimiter.AcceptsAreBounded` | bins/secgit-server/src/ratelimit.rs:47-87 | in any interval a key is allowed at most capacity plus refill times the length of the interval |
| `RateLimiter.EvictionShows` | bins/secgit-server/src/ratelimit.rs:51-58 | if idle time does not fill a bucket, there is a run in which eviction changes an answer |
| `RateLimiter.UnobservableExactlyWhenIdleFills` | bins/secgit-server/src/ratelimit.rs:47-87 | eviction is unobservable in all runs if and only if idle time times refill is at least the capacity |
| `RateBound.BoundIsPassed` | bins/secgit-server/src/ratelimit.rs:47-87 | if idle time does not fill a bucket, there is a run and an interval in which a key is allowed more than capacity plus refill |
| `RateBound.BoundedExactlyWhenIdleFills` | bins/secgit-server/src/ratelimit.rs:47-87 | in all runs and intervals a key is allowed at most capacity plus refill if and only if idle time times refill is at least the capacity |
| `RateExact.AllowedExactlyWhenItFits` | bins/secgit-server/src/ratelimit.rs:47-87 | if an idle bucket has time to fill, a check after any run is allowed if and only if the table has room for its key and, for every earlier time, the key's allowed checks since then and this one are at most capacity plus refill |
| `SearchText.Tokenize` | crates/secgit-search/src/lib.rs:176-192 | the loop finds exactly the maximal runs of at least two word characters, in lower case |
| `SearchText.LineTokens` | crates/secgit-search/src/lib.rs:132-145 | a token of a line is a token of the whole text |
| `SearchText.TokenOccurs` | crates/secgit-search/src/lib.rs:133-134 | a line in lower case contains each of its own tokens |
| `SearchText.SnippetShows` | crates/secgit-search/src/lib.rs:139 | a snippet is the line without the white space at its ends, cut to 200 characters |
| `SearchText.LowerIsAscii` | crates/secgit-search/src/lib.rs:133 | lower-casing turns A to Z into a to z and leaves the rest |
| `SearchIndex.KeyStringInjective` | crates/secgit-search/src/lib.rs:168-173 | token, document and list keys never coincide |
| `SearchIndex.Sorted` | crates/secgit-search/src/lib.rs:124-128 | a set is iterated in strictly ascending order, without omission |
| `SearchIndex.LessIsLexicographic` | crates/secgit-search/src/lib.rs:124-128 | paths are compared at the first character in which they differ, and a proper beginning comes first |
| `SearchIndex.Index.constructor` | crates/secgit-search/src/lib.rs:45-47 | an index over a store that holds some documents' tokens records those documents |
| `SearchIndex.Index.RemovePostings` | crates/secgit-search/src/lib.rs:77-83 | the loop takes the path out of the postings of the document's tokens |
| `SearchIndex.Index.AddPostings` | crates/secgit-search/src/lib.rs:53-60 | the loop adds the path to the postings of each token |
| `SearchIndex.PostAllAdds` | crates/secgit-search/src/lib.rs:53-60 | the postings gain exactly this path for exactly these tokens, without repetition |
| `SearchIndex.UnpostAllRemoves` | crates/secgit-search/src/lib.rs:77-83 | the postings lose exactly this path for exactly these tokens |
| `SearchIndex.Index.RemoveDocument` | crates/secgit-search/src/lib.rs:73-89 | afterwards the index records the same documents without this one |
| `SearchIndex.Index.IndexDocument` | crates/secgit-search/src/lib.rs:50-70 | afterwards the index records the document with its new content, and all others as before |
| `SearchIndex.PostingsAreTokens` | crates/secgit-search/src/lib.rs:50-89 | after any sequence of index and remove calls on an empty store, a path is in a token's postings if and only if its last indexed content has that token, and listed if and only if it was not removed since |
| `SearchIndex.Index.Candidates` | crates/secgit-search/src/lib.rs:111-124 | the intersection loop finds exactly the documents holding every term |
| `SearchIndex.ScanLines` | crates/secgit-search/src/lib.rs:132-145 | the matching lines of a document in order, cut at the limit |
| `SearchIndex.ScanPaths` | crates/secgit-search/src/lib.rs:126-147 | the matching lines of all candidates in order of path and line, cut at the limit |
| `SearchIndex.Index.SearchRepo` | crates/secgit-search/src/lib.rs:97-148 | the result is the first max_hits (at least one) lines, in order, that hold all terms, of the documents that do |
| `SearchIndex.HitsAreMatches` | crates/secgit-search/src/lib.rs:97-148 | every hit is a line containing every term, in a document that has every term as a token |
| `SearchIndex.HitsAreLines` | crates/secgit-search/src/lib.rs:97-148 | every hit is a line of a document that can be fetched, numbered from one, holding every token of a query that has some, in a document with every token, and shows that line |
| `SearchIndex.NoHitLineIsMissed` | crates/secgit-search/src/lib.rs:97-148 | every such line is a hit, unless as many lines as were asked for, and at least one, come before it |
| `SearchIndex.HitsAreInOrder` | crates/secgit-search/src/lib.rs:126-147 | hits are strictly in order of path and line, and no more than the limit |
| `SearchIndex.CutIsLater` | crates/secgit-search/src/lib.rs:141-143 | a match that the limit cuts off comes after every hit returned |
| `SearchIndex.SearchMissesNoLine` | crates/secgit-search/src/lib.rs:97-148 | a line whose own tokens include every term is returned, unless lines before it reached the limit |
| `Identity.BumpAll` | crates/secgit-identity/src/lib.rs:190-211 | the loop raises the best role to the greatest that the entries give |
| `Identity.EffectiveRole` | crates/secgit-identity/src/lib.rs:187-233 | the greatest role granted by ownership, org ownership, collaboration or a team of the owning org; none if none is |
| `Identity.EffectiveByCases` | crates/secgit-identity/src/lib.rs:187-233 | the effective role is the greatest that the user has as owner, as someone whose first entry in the owning organization is Owner, as a collaborator, or through a team of that organization that lists the user and grants the repository, read off the stored objects |
| `Identity.EffectiveIsUnique` | crates/secgit-identity/src/lib.rs:187-233 | the effective role is determined by the grants |
| `Identity.SetCollaboratorGrants` | crates/secgit-identity/src/store.rs:231-237 | setting a collaborator replaces what collaboration gave that user on that repository, and changes no other grant |
| `Identity.RemoveCollaboratorGrants` | crates/secgit-identity/src/store.rs:238-242 | removing a collaborator takes away exactly what collaboration gave that user on that repository |
| `Identity.SetCollaboratorIsLocal` | crates/secgit-identity/src/store.rs:231-237 | no other user's role, and no role on another repository, changes |
| `PersistentDirectory.KeyStringInjective` | crates/secgit-identity/src/store.rs:294-296 | objects and indexes never share a key |
| `PersistentDirectory.Open` | crates/secgit-identity/src/store.rs:43-66 | the loops add every listed object that exists, kind by kind, or report the first duplicate |
| `PersistentDirectory.ReopenIsIdentical` | crates/secgit-identity/src/store.rs:43-66 | a store in step with a directory opens as that directory |
| `PersistentDirectory.RunStaysInStep` | crates/secgit-identity/src/store.rs:43-242 | after any run the store holds the cached objects, each index lists its ids once, and reopening gives the cached directory |
| `PersistentDirectory.Persistent.constructor` | crates/secgit-identity/src/store.rs:65 | a directory object holds the given cache and store |
| `PersistentDirectory.Persistent.OpenStore` | crates/secgit-identity/src/store.rs:43-66 | a store opens with what it loads as in the cache, and in step if the store is; it fails exactly as loading does |
| `PersistentDirectory.Persistent.CreateObject` | crates/secgit-identity/src/store.rs:83-87 | a new object is cached, written and listed; an id in use is refused, except for teams |
| `PersistentDirectory.CreateExactly` | crates/secgit-identity/src/store.rs:83-87 | creating a user, organization or repository under an id in use answers Exists and changes nothing; otherwise the object is cached, stored and listed, and no other object changes |
| `PersistentDirectory.Persistent.AddId` | crates/secgit-identity/src/store.rs:321-329 | an id is listed once |
| `PersistentDirectory.Persistent.ReplaceObject` | crates/secgit-identity/src/store.rs:88-91 | an existing object is replaced in cache and store, and its listing kept |
| `PersistentDirectory.ReplaceExactly` | crates/secgit-identity/src/store.rs:88-91 | replacing a missing object answers NotFound and changes nothing; otherwise cache and store hold the new one and nothing else changes |
| `PersistentDirectory.Persistent.DeleteObject` | crates/secgit-identity/src/store.rs:92-98 | an object leaves cache, store and index together |
| `PersistentDirectory.DeleteExactly` | crates/secgit-identity/src/store.rs:92-98 | deleting a missing object answers NotFound and changes nothing; otherwise it is gone from cache, store and index and no other object changes |
| `PersistentDirectory.Persistent.SetRepoCollaborator` | crates/secgit-identity/src/store.rs:231-237 | the changed repository is written through, or the missing one reported |
| `PersistentDirectory.Persistent.RemoveRepoCollaborator` | crates/secgit-identity/src/store.rs:238-242 | the same for removing a collaborator |
| `ReplayGuard.Guarded.Open` | crates/secgit-keybroker/src/replay.rs:75-92 | memory starts as what the file holds, empty if there is none that can be read |
| `ReplayGuard.Guarded.CheckAndRecordAt` | crates/secgit-keybroker/src/replay.rs:97-124 | stale and replayed requests are refused, the latter with memory pruned and the file as it was; an accepted one is in memory, and in the file if it can be written |
| `ReplayGuard.StaleExactly` | crates/secgit-keybroker/src/replay.rs:97-107 | evidence is stale if and only if its timestamp is more than the ttl ago or more than the skew ahead, whatever the 64-bit limits cut off |
| `ReplayGuard.Guarded.Persist` | crates/secgit-keybroker/src/replay.rs:131-143 | the file becomes what is in memory, or stays as it was if it cannot be written |
| `ReplayGuard.RunRemembers` | crates/secgit-keybroker/src/replay.rs:97-124 | as long as the file can be read, a saved acceptance is not repeated until more than ttl has passed, whatever happens to later writes; an unsaved one neither, unless the guard is reopened before a later write succeeds |
| `ReplayGuard.EveryRunIsSafe` | crates/secgit-keybroker/src/replay.rs:75-143 | over every run whose reopenings read the file and find the last acceptance saved, two acceptances of a nonce are more than ttl apart, and a request not from the future is accepted once |
| `ReplayGuard.RefusedExactlyWhenReplayed` | crates/secgit-keybroker/src/replay.rs:75-143 | after any such run, a fresh request is refused as a replay if and only if its nonce was accepted within the retention window |
| `ReplayGuard.RecursExactlyWhenNotHeld` | crates/secgit-keybroker/src/replay.rs:75-143 | in any state, if later reopenings can read the file, an accepted request can be accepted again if and only if the file does not hold its nonce, or holds it since before the request's timestamp and the clock can pass the window |
| `ReplayGuard.RecursExactlyWhenLostOrFromTheFuture` | crates/secgit-keybroker/src/replay.rs:75-143 | in a state reached without an unreadable file: if and only if its record was not saved, or its timestamp was in the future and the clock can pass the window |
| `ReplayGuard.BlindReopenForgets` | crates/secgit-keybroker/src/replay.rs:75-87 | after a reopening that cannot read the file every accepted request is accepted again at once |
| `ReplayGuard.RunIsBacked` | crates/secgit-keybroker/src/replay.rs:75-143 | in every state a guard gets into without an unreadable file, memory holds every live record of the file |
| `CivilDate.DaysAreTrue` | crates/secgit-sso/src/saml.rs:386-393 | the formula counts the days since 1970-01-01, year by year and month by month, for every year |
| `CivilDate.NextDayCountsOne` | crates/secgit-sso/src/saml.rs:386-393 | the next day of every valid date counts one more, and 1970-01-01 counts zero |
| `CivilDate.DaysFollowTheCalendar` | crates/secgit-sso/src/saml.rs:386-393 | the count orders valid dates exactly as the calendar does |
| `CivilDate.ReadsInstant` | crates/secgit-sso/src/saml.rs:368-383 | a well-formed UTC instant is read as its seconds since 1970 |
| `CivilDate.AcceptsExactly` | crates/secgit-sso/src/saml.rs:368-383 | whatever white space is around it, a text is accepted if and only if it has two dashes and a T in their places and six numbers with or without a sign; colons and what follows the seconds are not looked at |
| `CivilDate.InstantsAreOrdered` | crates/secgit-sso/src/saml.rs:368-383 | of two well-formed instants the earlier, and only the earlier, is read as the smaller number |
| `CivilDate.ReadersAgree` | crates/secgit-import/src/lib.rs:292-307 | what the first reader accepts untrimmed, the second reads alike, with times before 1970 as zero |
| `CivilDate.ReadsUnix` | crates/secgit-import/src/lib.rs:292-307 | a well-formed instant from 1970 on is read as its seconds, an earlier one as zero |

## Left out

- Cryptographic primitives, key wrapping and the bytes at rest: sealing and opening are taken as exact inverses, and signing is a function that does not fail.
- Running git, its timeouts and its on-disk formats: replaced by the object-graph model above.
- Storage failures and I/O errors, except seals that stop partway, audit records written without their newline or only in part, and replay-guard files that cannot be read or written.
- Unicode: search and XML text are ASCII, so case folding and byte boundaries are not modelled; the instant readers are given ASCII text.
- Floating-point rounding in the limiter: tokens and time are reals.
- The remaining directory setters (org members, team members, team grants): each builds a changed copy and calls update, which is `Persistent.ReplaceObject`.
- Listings and lookups of the directory, and the repositories visible to a user: filters over what is modelled.
- Several repositories sharing one search store: each has its own namespace, so one is modelled.
- Hex encoding of nonces and JSON encoding of stored values: taken as injective.
- SAML policy checks, RSA verification, attestation, HTTP, web pages, webhooks, quotas, sessions and the semaphore.
- XmlSpelling.SpellingIsRead: processing instructions after the root's start tag are not among the ways to write an element, because the parser takes them for elements; comments that start with `>` or `->` are not, by `CommentSkippedExactly`. End tags have the name of their start tag, though the parser does not compare them.
- XmlTree.ParsePrinted: stated for elements whose names the parser can read back; printing an element whose name holds, say, a space has no inverse.
- GitSeal.Forge.constructor: does not model that the source makes the working root absolute and creates it, because no path is modelled.

# Models of a key-value store and a teaching kernel

This project models the hard parts of two systems in Dafny and proves what they promise:
a replicated key-value store with the json-c library it uses, and the Pintos kernel.

- **JSON** (`Json*.dfy`). The printer and the resumable tokener of json-c. The tokener is a
  pushdown automaton over characters, refined by the loops of the C function. What it accepts,
  returns and refuses is that of a recursive descent, in strict and lenient mode; what the
  printer prints is JSON text of RFC 8259 with the same meaning. Printing and parsing are
  inverse, and feeding a text in pieces does not show, with the exact condition under which it
  does.
- **Linked hash table** (`LinkHash*.dfy`). Open addressing with tombstones, resizing and an
  insertion-order list refines an ordered map over every run.
- **Two-phase commit** (`Tpc*.dfy`, `KvServer.dfy`). Master, slave handler, log and rebuild as
  a state machine with crashes, lost messages and failing file operations. Agreement over
  whole runs and crash recovery, each with its exact condition.
- **Store, cache, server** (`KvStore.dfy`, `SecondChance.dfy`, `CacheSet.dfy`, `UtList.dfy`,
  `Cache.dfy`, `KvServer.dfy`). Hash chains of files, a second-chance cache on linked lists,
  and a write-through server on top of both refine one map.
- **64-bit division** (`Div64.dfy`) from a 32-bit division instruction.
- **File system** (`InodeData.dfy`, `FreeMap.dfy`, `FileSys.dfy`, `FileSystem.dfy`,
  `FileRuns.dfy`, `FileCounts.dfy`, `FileContents.dfy`). Reads and writes are slices of a flat array of bytes;
  sectors of live files never meet over any run, so a write shows in one file only; and which
  runs lose sectors.
- **Allocator** (`MallocSpec.dfy`, `Malloc.dfy`, `MallocRuns.dfy`), **scheduler arithmetic** (`Mlfqs.dfy`),
  **heapsort** (`HeapSort.dfy`), **priority donation** (`Donate.dfy`) and **archive headers**
  (`UstarSpec.dfy`, `Ustar.dfy`).

Objects that the code updates in place are classes; each of their methods is tied by its
postcondition to a function of the old state, and the properties are lemmas about those
functions. `dafny verify dfyconfig.toml` checks the whole project.

Where a promise does not hold, the code is kept as it is, a lemma names an input that shows
it, and another says exactly when the promise holds: pauses inside a number (`JsonChunks`);
texts that strict mode takes and RFC 8259 does not, and comments left open (`JsonSimulation`);
rebuilds after a repeated commit, after a vote or an abort that could not be logged, after a
torn record or an unwritten store entry, and of values that fill the buffer (`Tpc`);
commits acknowledged by a slave that did not log its vote or could not update its store
(`TpcRuns`, `TpcMaster`); creates that fail for their name (`FileRuns`); requests close to 4 GB
(`Malloc`); the one signed quotient that does not fit and 32-bit remainders (`Div64`);
negative archive sizes (`Ustar`).

The comments of the source and its code disagree in a few places, and the model follows the
code: kvcacheset_clear does not reset the entry counter, a cache set whose single entry is
referenced evicts nothing, and the donation walk's counter is never advanced.

## Model

| member | source | states |
|---|---|---|
| JsonTheorems.RoundTrip | group1/kvstore/lib/json-c/json_tokener.c:231-881 | Parsing the printout of any tree of objects with distinct NUL-free keys, arrays, strings, int64s, booleans and nulls, in every printing style, gives the same tree with the same field order if and only if its height is below the depth limit; otherwise the depth error. |
| JsonTheorems.PrintedInChunks | group1/kvstore/lib/json-c/json_tokener.c:209-225 | A printed string, array or object fed in any pieces: every call but the last answers continue, and the last returns the value. |
| JsonTheorems.ScalarInChunks | group1/kvstore/lib/json-c/json_tokener.c:209-225 | A printed number or literal fed in any pieces: every call answers continue, and a following NUL makes the next one return the value. |
| JsonTheorems.ReadInChunks | group1/kvstore/lib/json-c/json_tokener.c:848-881 | The same for any text that reads to a complete value from any state at rest, by induction over the pieces. |
| JsonTheorems.PrintHasNoNul | group1/kvstore/lib/json-c/json_object.c:96-137 | No printout contains a NUL, so the terminator of the C string is its end. |
| JsonTheorems.NulEndsParse | group1/kvstore/lib/json-c/json_tokener.c:346-351 | Once a value is complete, the terminating NUL ends the parse with success and that value. |
| JsonSimulation.TokenerLanguage | group1/kvstore/lib/json-c/json_tokener.c:231-881 | Which texts are accepted, and to which value or error: for every text without a NUL, strict or lenient, the tokener returns the value, or the error code, of a recursive descent over the text (JsonReference), unless an escape for a high surrogate comes to be read. |
| JsonSimulation.SimValue | group1/kvstore/lib/json-c/json_tokener.c:262-846 | From every level that waits for a value the automaton does what the descent says, whatever lies below. |
| JsonSimulation.SimItems | group1/kvstore/lib/json-c/json_tokener.c:714-754 | The array states: items, separators, trailing comma, depth and their errors. |
| JsonSimulation.SimFields | group1/kvstore/lib/json-c/json_tokener.c:756-841 | The object states: names in either kind of quotes, colon, value, separators and their errors. |
| JsonSimulation.SimString | group1/kvstore/lib/json-c/json_tokener.c:476-630 | The string states: the bytes up to the closing quote, or the error of a bad or cut escape. |
| JsonSimulation.SimBlanks | group1/kvstore/lib/json-c/json_tokener.c:262-276 | White space and comments, with the star that must be an odd one to close a comment. |
| JsonSimulation.SimWord | group1/kvstore/lib/json-c/json_tokener.c:353-421 | The literal states, with and without regard to case. |
| JsonSimulation.StrictIsNotRfc | group1/kvstore/lib/json-c/json_tokener.c:262-846 | Where strict mode accepts more than RFC 8259: words like NaN, raw control characters, names in single quotes. |
| JsonSimulation.OpenCommentReturns | group1/kvstore/lib/json-c/json_tokener.c:848-881 | A concrete oddity: a comment left open inside an array makes the call succeed with the item before it. |
| JsonText.ReadBody | group1/kvstore/lib/json-c/json_tokener.c:476-630 | Every string of the grammar in section 7 of RFC 8259 without surrogates, in a value or a name, is read to bytes that it denotes. |
| JsonText.ReadUnicodeEscape | group1/kvstore/lib/json-c/json_tokener.c:532-630 | A unicode escape, with digits of either case, appends bytes that decode to its character by the table in section 4 of RFC 3629, and to U+FFFD for a low surrogate. |
| JsonText.Utf8Decodes | group1/kvstore/lib/json-c/json_tokener.c:555-619 | The encoder gives a well-formed sequence for the character, for all of Unicode. |
| JsonText.EscapeDenotes | group1/kvstore/lib/json-c/json_object.c:96-137 | Every printed string is a string of that grammar and denotes the bytes that were printed. |
| JsonText.EscapeTexts | group1/kvstore/lib/json-c/json_object.c:96-137 | The eight short escapes by their text, four lower-case digits for other control characters, and everything else as it is. |
| JsonGrammar.PrintMeans | group1/kvstore/lib/json-c/json_object.c:299-343 | Every printed tree, in every style, is a JSON text of RFC 8259 that means the tree, by a grammar that knows neither printer nor tokener. |
| JsonGrammar.ArrayLayout | group1/kvstore/lib/json-c/json_object.c:755-795 | The spaces, line breaks and indentation of an array in each style. |
| JsonGrammar.ObjectLayout | group1/kvstore/lib/json-c/json_object.c:299-343 | And of an object, with its name. |
| JsonGrammar.EmptyLayout | group1/kvstore/lib/json-c/json_object.c:755-795 | And of empty ones. |
| JsonGrammar.Int64Meaning | group1/kvstore/lib/json-c/json_util.c:180-265 | A sign, digits with any zeros in front and anything behind them read as the value, cut off at the 64-bit range; a sign alone does not. |
| JsonChunks.SplitIndependence | group1/kvstore/lib/json-c/json_tokener.c:209-225 | For a text without an escape for a high surrogate: resuming in a later call gives the same tokener after every further character if and only if the pause is not a bad split, a condition on the state and the text ahead. |
| JsonChunks.ResumedCall | group1/kvstore/lib/json-c/json_tokener.c:231-257 | Two calls on a split text without such an escape return the error, value and state of one call on the whole text unless the split is bad. |
| JsonChunks.MinusInfinityNeedsOneCall | group1/kvstore/lib/json-c/json_tokener.c:665-712 | The concrete failure: -Infinity read in one call is that double; with a pause behind the minus sign the second call answers that there is no number. |
| JsonChunks.HarmfulSplit | group1/kvstore/lib/json-c/json_tokener.c:665-712 | Every bad split is noticed: some prefix of the text ahead leaves different tokeners. |
| JsonChunks.HarmlessSplit | group1/kvstore/lib/json-c/json_tokener.c:231-257 | Runs that do not come to a high surrogate, from states that differ only in the locals of the call, stay alike as long as the split is not bad. |
| JsonChunks.StepTwins | group1/kvstore/lib/json-c/json_tokener.c:257-846 | One step from two such states makes the same kind of move to like states, in every state of the automaton. |
| JsonChunks.FeedAllRests | group1/kvstore/lib/json-c/json_tokener.c:209-225 | A call that runs out of text stops in a state from which the next call can resume. |
| JsonContainers.ParseValue | group1/kvstore/lib/json-c/json_tokener.c:257-846 | Printed text read at any ready level pushes, fills and pops so that the level holds the printed value, or stops with the depth error exactly if the nesting does not fit. |
| JsonContainers.ParseItems | group1/kvstore/lib/json-c/json_tokener.c:714-754 | The loop invariant of arrays: a partly read array holds the items read so far, and reading the rest of the printout appends the rest. |
| JsonContainers.ParseFields | group1/kvstore/lib/json-c/json_tokener.c:756-843 | The same for objects, with fields in printed order. |
| JsonContainers.CloseItem | group1/kvstore/lib/json-c/json_tokener.c:737-754 | After an item, comma and bracket pop the level and append the item to the parent array. |
| JsonContainers.CloseField | group1/kvstore/lib/json-c/json_tokener.c:822-843 | After a field value, comma and brace pop the level and add the field to the parent object. |
| JsonRoundTrip.ReadEscaped | group1/kvstore/lib/json-c/json_tokener.c:476-630 | Unescaping undoes escaping for every string, control characters and unicode escapes included. |
| JsonRoundTrip.ParseInt | group1/kvstore/lib/json-c/json_tokener.c:665-712 | The number state reads a printed integer to that integer. |
| JsonRoundTrip.ParseLiteral | group1/kvstore/lib/json-c/json_tokener.c:385-421 | null, true and false read to their values, character by character. |
| JsonNumbers.ParsePrintedInt | group1/kvstore/lib/json-c/json_util.c:180-265 | json_parse_int64 inverts the decimal printout on the whole 64-bit range, the smallest number included. |
| JsonTokener.StepKeepsValid | group1/kvstore/lib/json-c/json_tokener.c:257-846 | Every step of the automaton keeps the invariant on the level stack, and every redo lowers a rank, so the redo loop ends. |
| JsonTokener.FeedAllConcat | group1/kvstore/lib/json-c/json_tokener.c:209-225 | Reading a concatenation is reading its halves in turn. |
| JsonParser.Tokener.constructor | group1/kvstore/lib/json-c/json_tokener.c:106-121 | A new tokener is in the initial state. |
| JsonParser.Tokener.Reset | group1/kvstore/lib/json-c/json_tokener.c:136-156 | Whatever the state, reset leaves one fresh level and no error. |
| JsonParser.Tokener.SkipBlanks | group1/kvstore/lib/json-c/json_tokener.c:262-276 | The inner white-space loop has the effect of feeding the blanks one by one. |
| JsonParser.Tokener.ScanText | group1/kvstore/lib/json-c/json_tokener.c:476-499 | The inner loop over a string segment has the effect of feeding its characters one by one. |
| JsonParser.Tokener.ScanNumber | group1/kvstore/lib/json-c/json_tokener.c:665-690 | The inner loop over a number has the effect of feeding its characters one by one. |
| JsonParser.Tokener.ScanComment | group1/kvstore/lib/json-c/json_tokener.c:435-464 | The inner loops of both comment forms, likewise. |
| JsonParser.Tokener.OnePass | group1/kvstore/lib/json-c/json_tokener.c:257-846 | One pass through the switch follows the character automaton and makes progress. |
| JsonParser.Tokener.Finish | group1/kvstore/lib/json-c/json_tokener.c:848-881 | The code behind the out label: the error of an incomplete text, the value of a complete one. |
| JsonParser.Tokener.ParseText | group1/kvstore/lib/json-c/json_tokener.c:231-881 | A whole call, with its inner loops and its buffer, computes what the character automaton computes. |
| JsonParser.Tokener.ParseEx | group1/kvstore/lib/json-c/json_tokener.c:231-257 | The length argument: explicit length, -1 for a C string, and the size error with nothing changed. |
| JsonParser.Reparse | group1/kvstore/lib/json-c/json_tokener.c:158-184 | Printing and parsing with the default depth gives the value back if and only if its height is below 32. |
| JsonPrinter.EscapeStr | group1/kvstore/lib/json-c/json_object.c:96-137 | The loop that appends runs of ordinary characters between escapes appends the escaped string. |
| JsonPrinter.ToJson | group1/kvstore/lib/json-c/json_object.c:266-282 | The printer of any value appends exactly its printout. |
| JsonPrinter.ArrayToJson | group1/kvstore/lib/json-c/json_object.c:755-795 | The array loop, with its flags for blanks and line breaks, appends the printout of the array. |
| JsonPrinter.ObjectToJson | group1/kvstore/lib/json-c/json_object.c:299-343 | The object loop, likewise. |
| JsonPrinter.StringToJson | group1/kvstore/lib/json-c/json_object.c:690-699 | A string prints as its escaped text between quotes. |
| JsonPrinter.BooleanToJson | group1/kvstore/lib/json-c/json_object.c:438-445 | A boolean prints as its literal. |
| JsonPrinter.EscapeConcat | group1/kvstore/lib/json-c/json_object.c:96-137 | Escaping is a homomorphism on concatenation. |
| JsonValue.AddNewField | group1/kvstore/lib/json-c/json_object.c:380-397 | A new key is added at the end of the field list. |
| JsonValue.AddExistingField | group1/kvstore/lib/json-c/json_object.c:380-397 | An existing key keeps its place and gets the new value; nothing else changes. |
| JsonObject.PutIsAddField | group1/kvstore/lib/json-c/json_object.c:380-397 | What the hash table does on an add is the field list operation of the tokener. |
| JsonObject.ObjectAdd | group1/kvstore/lib/json-c/json_object.c:380-397 | Adding through the linked hash table is adding to the field list. |
| LinkHash.Table.constructor | group1/kvstore/lib/json-c/linkhash.c:426-446 | A new table is empty and valid. |
| LinkHash.Table.LookupEntry | group1/kvstore/lib/json-c/linkhash.c:527-542 | The probe with its counter returns the live slot of the key, or the null pointer exactly when no such key is stored, tombstones and full tables included. |
| LinkHash.Table.Lookup | group1/kvstore/lib/json-c/linkhash.c:552-561 | The value of the stored pair, found exactly when there is one. |
| LinkHash.Table.FreeSlot | group1/kvstore/lib/json-c/linkhash.c:500-507 | The insert probe ends in a slot that is not live, with only live slots before it. |
| LinkHash.Table.Insert | group1/kvstore/lib/json-c/linkhash.c:493-524 | An absent key goes to the end of the ordered list; the table doubles first exactly when it is loaded. |
| LinkHash.Table.Resize | group1/kvstore/lib/json-c/linkhash.c:460-478 | Rehashing keeps all pairs and their order. |
| LinkHash.Table.DeleteEntry | group1/kvstore/lib/json-c/linkhash.c:563-589 | Exactly the deleted pair leaves the ordered list, with head and tail cases; a slot that is not live answers -1 and changes nothing. |
| LinkHash.Table.Delete | group1/kvstore/lib/json-c/linkhash.c:592-597 | Deletes the pair of the key, or changes nothing and answers -1 exactly when there is none. |
| LinkHash.Table.Add | group1/kvstore/lib/json-c/json_object.c:380-397 | Replace in place or insert: the ordered map operation. |
| LinkHash.Table.Serve | group1/kvstore/lib/json-c/linkhash.c:493-597 | One request is one operation of an ordered map. |
| LinkHash.Table.ServeAll | group1/kvstore/lib/json-c/linkhash.c:493-597 | Over any sequence of adds, deletes and lookups the table equals the ordered map after every request, and every lookup answers as the map would. |
| LinkHash.FindAgrees | group1/kvstore/lib/json-c/linkhash.c:552-561 | The search of the ordered map finds the value of the pair with the key, exactly when there is one. |
| LinkHashSpec.InsertedOrder | group1/kvstore/lib/json-c/linkhash.c:509-521 | Appending to the intrusive list keeps order, links and pairs. |
| LinkHashSpec.InsertedProbe | group1/kvstore/lib/json-c/linkhash.c:500-507 | Placing a key in the first slot that is not live keeps every key reachable by its probe. |
| LinkHashSpec.DeletedOrder | group1/kvstore/lib/json-c/linkhash.c:563-589 | Unlinking a node removes it from order, links and pairs and touches nothing else. |
| LinkHashSpec.DeletedProbe | group1/kvstore/lib/json-c/linkhash.c:573-574 | A tombstone keeps the keys behind it reachable. |
| LinkHashSpec.ProbeMisses | group1/kvstore/lib/json-c/linkhash.c:527-542 | A probe that met an empty slot, or every slot, without the key proves that no slot has it. |
| LinkHashSpec.AllLiveIsFull | group1/kvstore/lib/json-c/linkhash.c:500-507 | A probe that meets only live slots means that the table is full, so the insert probe ends. |
| Tpc.CrashRecovery | group1/kvstore/src/server/kvserver.c:382-430 | For every slave, a crash at every point of a handler, inside its log record and its store update too, and every outcome of the file operations of handler and rebuild: if the record was written, the rebuilt slave is as if the message had been handled completely, otherwise as if it had never arrived, if and only if Tpc.Recoverable holds: no record is torn, no entry file is left empty and no record was used that could not be read, the value fits the buffer, and a commit finds its request at the end of the log and gets it into the store, or repeats what is stored; without a record, the store is as before and the log told the state. |
| Tpc.RestartIsHarmless | group1/kvstore/src/server/kvserver.c:382-430 | For every slave and every outcome of the store update of the rebuild: a restart outside a handler changes neither the store nor the waiting status if and only if the log tells them. |
| Tpc.ReachableLog | group1/kvstore/src/server/kvserver.c:188-289 | Over every run of messages, crashes and restarts, with the directory there or not, log records unwritten or torn and store updates refused, the log tells the state all along if and only if every event is harmless when it happens. |
| Tpc.EventKeepsLog | group1/kvstore/src/server/kvserver.c:188-289 | One event keeps the log in step with the state if and only if it is harmless. |
| Tpc.HandleTells | group1/kvstore/src/server/kvserver.c:206-277 | A handler leaves a log that tells its state if and only if no record is torn and its own was written and does not mislead, or its file was not opened and the log needs no record, whatever the slave was before. |
| Tpc.RebuiltTells | group1/kvstore/src/server/kvserver.c:382-430 | The log of a rebuilt slave tells its state if and only if the rebuild could update the store or had nothing to update. |
| Tpc.FirstRequest | group1/kvstore/src/server/kvserver.c:206-249 | The first request of a fresh slave starts such a log if and only if its record is written and its value fits the buffer. |
| Tpc.ApplyTwice | group1/kvstore/src/server/kvserver.c:382-430 | Re-applying a committed request changes nothing. |
| Tpc.VotedAndCommitted | group1/kvstore/src/server/kvserver.c:206-270 | A slave votes for a request exactly if keys and values are short enough and a key to delete is there; after vote and commit the key of a put holds its value, the key of a del is gone and every other key is as before; an abort changes nothing. |
| Tpc.ApplyDoes | group1/kvstore/src/server/kvserver.c:122-166 | The same of applying a request, in terms of the map. |
| Tpc.LastCommittedCounts | group1/kvstore/src/server/kvserver.c:250-270 | A sequence of committed requests leaves under a key what the last one on it that fitted says. |
| Tpc.UntouchedKeyStays | group1/kvstore/src/server/kvserver.c:250-270 | And what was there under a key that none is about. |
| Tpc.StrayCommitRevivesAbort | group1/kvstore/src/server/kvserver.c:250-270 | A concrete failure: a repeated commit after an abort makes the rebuild store the aborted pair. |
| Tpc.UnloggedAbortIsForgotten | group1/kvstore/src/server/kvserver.c:271-277 | Another: an abort acknowledged without the directory is not logged; the rebuilt slave waits again, refuses the next request, and a commit stores the aborted pair. |
| Tpc.UnloggedVoteIsForgotten | group1/kvstore/src/server/kvserver.c:214-221 | Another: a vote to commit whose log file cannot be opened is unknown to the rebuilt slave. |
| Tpc.UnwrittenRecordIsFatal | group1/kvstore/src/server/tpclog.c:56-76 | Another: a record that is not completely written, without any crash, can neither be committed nor rebuilt. |
| Tpc.HalfWrittenEntryIsFatal | group1/kvstore/src/server/kvstore.c:153-162 | Another: a crash while the entry of a committed put is written; before and after it recovery works. |
| Tpc.UnwrittenEntryIsFatal | group1/kvstore/src/server/kvstore.c:161-165 | Another: the entry could not be written, which nobody notices, and the crash comes then or later; before it recovery works. |
| Tpc.InaccessibleVoteRecovers | group1/kvstore/src/server/kvserver.c:214-226 | A slave that finds no directory votes to abort, logs nothing, and its log goes on telling its state. |
| Tpc.LongestValueBreaks | group1/kvstore/src/server/kvserver.c:259-261 | Another: a value of exactly the accepted length is voted for and can then neither be committed nor rebuilt. |
| Tpc.RefusedValueBreaks | group1/kvstore/src/server/kvserver.c:406-408 | Another: a longer value is refused, but its record still breaks the rebuild. |
| TpcRuns.Agreement | group1/kvstore/src/server/tpcmaster.c:239-331 | In every state of every run in which no commit spoils a slave, with silent slaves, lost votes, crashes in either phase, restarts, repeated decisions and failing file operations: between transactions each store is the fold of the committed requests; during one, with or without the open request, and never before the decision. |
| TpcRuns.DeliveryAgrees | group1/kvstore/src/server/kvserver.c:262-268 | Why none may: after a delivery the slave has the committed requests if and only if the request its log ends with, executed if the store can be updated, has the effect of the committed one; an acknowledged miss spoils. |
| TpcRuns.MissedCommitDisagrees | group1/kvstore/src/server/kvserver.c:262-268 | The concrete input: one of two slaves cannot open its store file, both acknowledge the commit, and their stores differ. |
| TpcRuns.UnloggedVoteDisagrees | group1/kvstore/src/server/kvserver.c:214-221 | Another: a slave whose vote to commit was not logged acknowledges the commit and does nothing. |
| TpcRuns.LoggedCommitSpoils | group1/kvstore/src/server/kvserver.c:250-270 | For a slave that logged its vote, a commit spoils it if and only if it changes the store, the store could not be updated, and it was acknowledged or recorded. |
| TpcRuns.FalseRecordDisagrees | group1/kvstore/src/server/kvserver.c:416-424 | Unless a record is torn, a commit record changes the store at the next restart if and only if the last request before it is not in the store. |
| TpcRuns.RunKeepsInv | group1/kvstore/src/server/tpcmaster.c:239-331 | The invariant that ties master phase, logs and stores holds all along a run if and only if no commit spoils a slave. |
| TpcRuns.StepKeepsInv | group1/kvstore/src/server/tpcmaster.c:239-331 | A step of master or slaves keeps it if and only if it is not a commit that gives a wrong store or a record the store does not bear out. |
| TpcRuns.CrashKeepsInv | group1/kvstore/src/server/kvserver.c:250-277 | A crash inside the handling of a decision keeps it if and only if what the rebuild repeats gives neither. |
| TpcRuns.RestartKeepsInv | group1/kvstore/src/server/kvserver.c:382-430 | And a restart with rebuild at any time. |
| TpcRuns.SilentSlaveDisagrees | group1/kvstore/src/server/tpcmaster.c:262-267 | A commit sent although one slave never voted makes the stores differ. |
| TpcRuns.CommitWithoutVote | group1/kvstore/src/server/kvserver.c:250-270 | A slave that never voted and one that did agree after the commit if and only if the request changes nothing. |
| TpcOrderly.OrderlyRunAgrees | group1/kvstore/src/server/tpcmaster.c:239-331 | In every state of every run whose votes are heard, whose votes to commit are logged and whose stores can be updated, all slaves agree, and between transactions every store is the fold of the committed requests, whatever directories are missing, aborts unlogged, slaves crashed and restarted besides. |
| TpcOrderly.OrderlyRun | group1/kvstore/src/server/tpcmaster.c:239-331 | No commit of such a run spoils a slave, and all its states keep the invariant of such runs. |
| TpcOrderly.OrderlyKeepsInv | group1/kvstore/src/server/tpcmaster.c:239-331 | A step of such a run keeps the invariant that all slaves asked so far have logged the request unless one refused. |
| TpcOrderly.OrderlyNeverSpoils | group1/kvstore/src/server/kvserver.c:250-270 | No step of such a run spoils a slave. |
| TpcOrderly.CrashedSlave | group1/kvstore/src/server/kvserver.c:250-270 | A crash during the commit of a logged request: the slave cannot be rebuilt exactly if a record is torn, an entry file is left empty, by the crash or by a failed write before it, the log was looked at without the directory, or the value is too long; otherwise it is as before or as after, and which is said exactly. |
| TpcOrderly.DeliveryIsDefined | group1/kvstore/src/server/kvserver.c:250-261 | In such a run a decision has no defined outcome exactly if it is a commit and the directory is missing, the value is too long for the buffer, or the store file is damaged. |
| TpcOrderly.RestartIsDefined | group1/kvstore/src/server/kvserver.c:382-430 | And a restart exactly if the log is empty or ends with the request for such a value, or repeating a commit damages the store file. |
| TpcMaster.HandleTpc | group1/kvstore/src/server/tpcmaster.c:239-331 | One transaction over a list of slaves, reached or not, heard or not: it aborts exactly if a refusal is heard; an aborted request is in no store; a committed one is in the store of a slave that logged its vote exactly as the table of fates says, and if all did, in all stores if and only if every fate is to have it or it changes nothing. |
| TpcMaster.Poll | group1/kvstore/src/server/tpcmaster.c:248-272 | Phase 1: each slave that is reached handles the request, and the master aborts exactly if it hears one refuse; silence and rejection count as consent. |
| TpcMaster.SendDecision | group1/kvstore/src/server/tpcmaster.c:278-326 | Phase 2 for one slave: all deliveries until the acknowledged one, handled or interrupted. |
| TpcMaster.FateIsTold | group1/kvstore/src/server/kvserver.c:250-270 | The table of fates is what handler and rebuild do, for every outcome of their file operations: repeating a commit that was recorded and not executed does not help, a crash does. |
| TpcMaster.FateOfSlave | group1/kvstore/src/server/kvserver.c:250-270 | Over any deliveries of a commit, a slave that logged its vote survives if and only if the table says so, and has the request as it says. |
| TpcMaster.AbortedStore | group1/kvstore/src/server/kvserver.c:271-277 | Over any deliveries of an abort its store stays. |
| TpcLog.Log.constructor | group1/kvstore/src/server/tpclog.c:16-38 | Counting the log files one after the other finds the end of the log. |
| TpcLog.Log.Append | group1/kvstore/src/server/tpclog.c:43-81 | A record is added at the end, or nothing if its file cannot be opened, or a torn record if it is not completely written, with the result of each case, which is 0 for a write that fails outright; the files stay numbered without gaps. |
| TpcLog.Log.Next | group1/kvstore/src/server/tpclog.c:133-148 | Iteration returns the records in order, and null behind the last or without the directory. |
| TpcLog.Log.Clear | group1/kvstore/src/server/tpclog.c:151-168 | No record is left. |
| Cache.Cache.Get | group1/kvstore/src/server/kvcache.c:40-44 | The value in the set of the key, with its reference bit set, or the exact error; the other sets are as before. |
| Cache.Cache.Put | group1/kvstore/src/server/kvcache.c:48-54 | The set of the key changes as the second-chance policy says, and no other set does. |
| Cache.Cache.Del | group1/kvstore/src/server/kvcache.c:58-62 | The key leaves its set, and no other set changes. |
| Cache.Init | group1/kvstore/src/server/kvcache.c:12-27 | -1 exactly for no sets or fewer than two entries per set; otherwise empty sets that share no list and no entry. |
| KvServer.Server.ServeAll | group1/kvstore/src/server/kvserver.c:295-335 | Any sequence of gets, puts and dels answers as one map would, failing store files included, whatever is cached, evicted or chained in the linked lists of the cache sets. |
| KvServer.Server.Serve | group1/kvstore/src/server/kvserver.c:295-335 | One request is one map operation and answers as the map does. |
| KvServer.Server.Get | group1/kvstore/src/server/kvserver.c:87-108 | The stored value, from cache or store, or the exact error, with and without the directory. |
| KvServer.Server.Put | group1/kvstore/src/server/kvserver.c:122-138 | The stored map gains exactly this pair, or nothing changes and the exact error is returned, and the cache stays coherent. |
| KvServer.Server.Del | group1/kvstore/src/server/kvserver.c:152-166 | The stored map loses exactly this key, or nothing if its file cannot be removed or renamed, with the exact error; the cache stays coherent. |
| KvServer.Server.HandleTpc | group1/kvstore/src/server/kvserver.c:188-289 | The handler with its log, cache and store in one directory refines the slave step of the protocol, failing file operations included. |
| KvServer.Server.Rebuild | group1/kvstore/src/server/kvserver.c:382-430 | The rebuild with its two scans of the log refines the recovery step of the protocol. |
| KvServer.Server.Execute | group1/kvstore/src/server/kvserver.c:250-270 | Executing a logged request sets exactly the key of a put or drops exactly the key of a del, or nothing if the store cannot be updated. |
| KvServer.Server.Check | group1/kvstore/src/server/kvserver.c:114-150 | The vote: whether the store would accept the request. |
| KvServer.LastWriteCounts | group1/kvstore/src/server/kvserver.c:87-166 | In the reference map, a key holds what its last successful put wrote unless deleted since. |
| KvServer.PutKeeps | group1/kvstore/src/server/kvserver.c:122-138 | Caching a pair that the store takes too keeps every cached pair a stored pair, eviction included. |
| KvServer.DelKeeps | group1/kvstore/src/server/kvserver.c:152-166 | Dropping a key from its cache set keeps the cache coherent before and after the store drops it. |
| KvServer.HitIsStored | group1/kvstore/src/server/kvserver.c:87-108 | A cache hit is a pair of the store. |
| KvStore.Store.FindEntry | group1/kvstore/src/server/kvstore.c:45-93 | The chain position of a key, or the exact error; a gap ends the chain. |
| KvStore.Store.Get | group1/kvstore/src/server/kvstore.c:103-110 | The mapped value, or the exact error. |
| KvStore.Store.Put | group1/kvstore/src/server/kvstore.c:127-166 | Overwriting or appending in the chain changes the map by exactly this pair; a file that cannot be opened changes nothing and is reported. |
| KvStore.Store.Del | group1/kvstore/src/server/kvstore.c:184-221 | Moving the last entry of the chain into the hole removes exactly this key; a file that cannot be removed or renamed changes nothing and is reported. |
| KvStore.Store.DelCheck | group1/kvstore/src/server/kvstore.c:170-181 | The exact error a deletion would give. |
| KvStore.Deleted | group1/kvstore/src/server/kvstore.c:184-221 | Files after the move form gapless chains with distinct keys for the map without the key. |
| KvStore.Appended | group1/kvstore/src/server/kvstore.c:127-166 | Files with one more entry at the end of a chain, likewise for the map with the pair. |
| KvStore.Overwritten | group1/kvstore/src/server/kvstore.c:127-166 | Files with one entry rewritten, likewise. |
| KvStore.AbsentKey | group1/kvstore/src/server/kvstore.c:45-93 | A key not met before its chain ends is in no file. |
| SecondChance.EvictsFirstUnreferenced | group1/kvstore/src/server/kvcacheset.c:70-88 | The walk removes the first unreferenced entry; those it passed are cleared and at the end. |
| SecondChance.EvictsOldest | group1/kvstore/src/server/kvcacheset.c:70-88 | If all are referenced, all are cleared and the oldest goes, unless it is the only one. |
| SecondChance.EvictLength | group1/kvstore/src/server/kvcacheset.c:70-88 | Exactly one entry goes, except for an empty list and a single referenced entry. |
| SecondChance.EvictKeepsPairs | group1/kvstore/src/server/kvcacheset.c:70-88 | What is left are pairs that were there, with distinct keys. |
| SecondChance.PutKeepsOk | group1/kvstore/src/server/kvcacheset.c:46-94 | Distinct keys and list length <= num_entries <= elem_per_set survive every put. |
| SecondChance.OthersKeepOk | group1/kvstore/src/server/kvcacheset.c:29-124 | And every get, del and clear, although clear does not reset the counter. |
| SecondChance.PutPairs | group1/kvstore/src/server/kvcacheset.c:46-94 | A put leaves the new pair and pairs that were there, and no old value of the key. |
| SecondChance.DelPairs | group1/kvstore/src/server/kvcacheset.c:98-111 | A deletion leaves no pair of the key. |
| SecondChance.PutResult | group1/kvstore/src/server/kvcacheset.c:46-94 | After a put exactly these pairs are cached: the new one, and the old ones but for those of its key and, if there is no room, of the victim. |
| SecondChance.PutPlace | group1/kvstore/src/server/kvcacheset.c:46-94 | A new entry is the youngest and not referenced; an overwritten one keeps its place and is referenced; the others are as before or as the walk leaves them. |
| SecondChance.EvictedPairs | group1/kvstore/src/server/kvcacheset.c:70-88 | The walk removes the pair of the first unreferenced entry, or of the oldest, and no other. |
| SecondChance.DelResult | group1/kvstore/src/server/kvcacheset.c:98-111 | After a deletion exactly the pairs of the other keys are cached. |
| SecondChance.TouchResult | group1/kvstore/src/server/kvcacheset.c:29-40 | A get keeps every pair and sets the reference bit of its key and no other. |
| SecondChance.CounterCounts | group1/kvstore/src/server/kvcacheset.c:46-111 | Until the set is cleared its counter is the number of entries. |
| CacheSet.CacheSet.EvictOne | group1/kvstore/src/server/kvcacheset.c:70-88 | The loop that appends to the linked list it walks ends and has the effect of the specified walk; hash and list hold the same entries. |
| CacheSet.CacheSet.Put | group1/kvstore/src/server/kvcacheset.c:46-94 | List, hash, bits and counter after a put are those of the specified set. |
| CacheSet.CacheSet.Get | group1/kvstore/src/server/kvcacheset.c:29-42 | The value and the reference bit. |
| CacheSet.CacheSet.Del | group1/kvstore/src/server/kvcacheset.c:98-111 | List, hash and counter after a deletion. |
| CacheSet.CacheSet.Clear | group1/kvstore/src/server/kvcacheset.c:114-124 | List and hash are emptied, the counter is kept. |
| CacheSet.CacheSet.Rotate | group1/kvstore/src/server/utlist.h:519-573 | Deleting and appending the head moves it to the end of the list. |
| UtList.List.Append | group1/kvstore/src/server/utlist.h:519-534 | The doubly linked list, with its head pointing back to the tail, gains the node at the end. |
| UtList.List.Delete | group1/kvstore/src/server/utlist.h:554-573 | The list loses exactly the node, as head, tail or in between. |
| Div64.Udiv64 | group1/pintos/src/lib/arithmetic.c:77-127 | For all 64-bit dividends and nonzero divisors the result is the floor quotient, and no 32-bit division instruction traps. |
| Div64.DivideBySmall | group1/pintos/src/lib/arithmetic.c:80-112 | The schoolbook branch for divisors below 2^32. |
| Div64.DivideByLarge | group1/pintos/src/lib/arithmetic.c:113-126 | The estimate-and-correct branch for larger divisors. |
| Div64.EstimateIsClose | group1/pintos/src/lib/arithmetic.c:113-126 | Clearing the low bits of a normalized divisor changes the quotient by at most one. |
| Div64.CloseEstimate | group1/pintos/src/lib/arithmetic.c:113-126 | The instruction in that branch does not trap, and its shifted result is the quotient or one more. |
| Div64.Correction | group1/pintos/src/lib/arithmetic.c:113-126 | The final comparison picks the right candidate without overflow. |
| Div64.SmallDivisor | group1/pintos/src/lib/arithmetic.c:80-112 | Dividing word by word with the remainder carried gives the quotient. |
| Div64.Nlz | group1/pintos/src/lib/arithmetic.c:41-75 | The binary steps count the shift that sets the top bit. |
| Div64.Divl | group1/pintos/src/lib/arithmetic.c:25-37 | The instruction: floor quotient, defined only when it fits 32 bits. |
| Div64.Sdiv64 | group1/pintos/src/lib/arithmetic.c:139-146 | Truncates toward zero if and only if the operands are not the smallest number and -1. |
| Div64.Umod64 | group1/pintos/src/lib/arithmetic.c:131-136 | Is the remainder if and only if that fits the 32-bit result type. |
| InodeData.Device.ReadAt | group1/pintos/src/filesys/inode.c:200-251 | For every size and offset, the bytes read are exactly the slice of the file cut at its end, and the rest of the buffer stays; fewer only when no bounce buffer can be allocated. |
| InodeData.Device.WriteAt | group1/pintos/src/filesys/inode.c:257-318 | Exactly the covered bytes change; every other byte of the device stays, in the same sectors and past the end of the file too; nothing when writes are denied. |
| InodeData.PartialChunk | group1/pintos/src/filesys/inode.c:299-307 | The zero-filled bounce buffer is never the one written. |
| InodeData.ReadsBack | group1/pintos/src/filesys/inode.c:200-318 | What was written is what a read of the range returns. |
| InodeData.OtherFileKept | group1/pintos/src/filesys/inode.c:257-318 | No range of a file on other sectors is changed by a write. |
| InodeData.ChunkSize | group1/pintos/src/filesys/inode.c:213-221 | A chunk stays inside the request, the file and one sector, and is empty only at the end. |
| FileContents.OthersKept | group1/pintos/src/filesys/inode.c:257-318 | In every state with the file system invariant, a write to a live file changes no sector, inode or data, of any other live file, nor its own inode. |
| FileContents.OtherReadsSame | group1/pintos/src/filesys/inode.c:200-318 | So a read of any range of another live file returns what it did before the write. |
| FileRuns.RunKeeps | group1/pintos/src/filesys/filesys.c:45-91 | Over every run of creates, opens, closes and removes, the sectors of all named or open files are disjoint and marked; and a run that starts with no sector lost ends so if and only if no create in it failed for its name after finding room for data. |
| FileRuns.HeldFileKept | group1/pintos/src/filesys/inode.c:111-195 | A file that stays named or open through a run keeps its inode and its sectors, marked and unshared, removed or not. |
| FileRuns.RunKeepsLost | group1/pintos/src/filesys/filesys.c:45-60 | A lost sector is never found again. |
| FileRuns.EmptyNameLeaks | group1/pintos/src/filesys/filesys.c:45-60 | The concrete failure: creating a one-byte file with an empty name loses a sector. |
| FileRuns.StepKeeps | group1/pintos/src/filesys/filesys.c:45-91 | One call: invariant kept, and no sector lost if and only if it is not such a create. |
| FileRuns.Serve | group1/pintos/src/filesys/filesys.c:45-91 | The calls, in place on free map, inodes, directory and open inodes, do what the specified steps do. |
| FileCounts.RunCounts | group1/pintos/src/filesys/inode.c:111-188 | Over every run, a file is open exactly if its opens by name outnumber its closes, and open_cnt is the difference. |
| FileCounts.LastCloseReleases | group1/pintos/src/filesys/inode.c:163-188 | After any run a close gives sectors back exactly if it is the last one by that count and the file has no name, and then exactly the sectors of that file. |
| FileCounts.RemoveByCount | group1/pintos/src/filesys/filesys.c:83-91 | A remove does so exactly if the count is zero. |
| FileCounts.CountedFileKept | group1/pintos/src/filesys/inode.c:111-195 | As long as a file has a name or openers by that count, it keeps its sectors, marked and unshared. |
| FileCounts.TwoOpeners | group1/pintos/src/filesys/inode.c:163-188 | Opened twice, closed once and removed, a file has its sectors until the second close. |
| FileCounts.NamesAfter | group1/pintos/src/filesys/filesys.c:45-91 | What every call does to the names: a create adds one name for the first free sector, a remove takes this name, nothing else changes. |
| FileCounts.CreatesExactly | group1/pintos/src/filesys/filesys.c:45-60 | A create succeeds exactly if the name is new and of 1 to 14 characters, a slot is free and the sectors are. |
| FileCounts.CreateGives | group1/pintos/src/filesys/filesys.c:45-60 | A created file has its size, and exactly its sectors, which were free, are marked. |
| FileSys.CreateKeeps | group1/pintos/src/filesys/filesys.c:45-60 | A create keeps every live file and its inode; it loses sectors exactly when it finds room, has data and cannot add the name. |
| FileSys.LeakLosesData | group1/pintos/src/filesys/filesys.c:45-60 | The failed create loses sectors exactly if the file has data. |
| FileSys.AddKeeps | group1/pintos/src/filesys/directory.c:141-179 | A new file on free sectors keeps the invariant and was not live before. |
| FileSys.OpenKeeps | group1/pintos/src/filesys/inode.c:111-150 | Opening keeps the invariant and the set of live files. |
| FileSys.CloseLive | group1/pintos/src/filesys/inode.c:163-186 | A close gives a file up exactly if it is the last close of a removed file. |
| FileSys.CloseKeeps | group1/pintos/src/filesys/inode.c:163-186 | What a close releases belongs to no live file. |
| FileSys.CloseTight | group1/pintos/src/filesys/inode.c:163-186 | A close loses no sector. |
| FileSys.UnlinkKeeps | group1/pintos/src/filesys/directory.c:184-216 | Erasing the entry of an open file and marking it removed keeps the invariant and loses no sector. |
| FileSystem.RemoveReleases | group1/pintos/src/filesys/directory.c:184-216 | After a remove the name is gone; the sectors are free at once if nobody has the file open, and the free map is untouched if somebody does. |
| FileSystem.FileSystem.Format | group1/pintos/src/filesys/filesys.c:94-103 | A formatted device satisfies the invariant with no sector lost. |
| FileSystem.FileSystem.Create | group1/pintos/src/filesys/filesys.c:45-60 | Succeeds exactly if inode and data fit and the name can be added; the new state, and when it loses sectors. |
| FileSystem.FileSystem.Open | group1/pintos/src/filesys/filesys.c:66-78 | Opens the named file once more, or changes nothing exactly if there is none. |
| FileSystem.FileSystem.Remove | group1/pintos/src/filesys/filesys.c:83-91 | Removes the named file, or changes nothing exactly if there is none. |
| FileSystem.FileSystem.InodeCreate | group1/pintos/src/filesys/inode.c:72-106 | Takes the first run that fits the data and writes the inode, or changes nothing. |
| FileSystem.FileSystem.InodeOpen | group1/pintos/src/filesys/inode.c:111-150 | Counts the opener, keeping the removed flag of an inode that is already open. |
| FileSystem.FileSystem.InodeClose | group1/pintos/src/filesys/inode.c:163-186 | Both releases meet the assertion that the sectors are used, so each is released exactly once. |
| FileSystem.FileSystem.Lookup | group1/pintos/src/filesys/directory.c:91-112 | The first slot in use with the name. |
| FileSystem.FileSystem.DirAdd | group1/pintos/src/filesys/directory.c:141-179 | Adds in the first free slot exactly if the name is valid and new and a slot is free. |
| FileSystem.FileSystem.Allocate | group1/pintos/src/filesys/free-map.c:27-41 | First fit: the lowest run of free sectors, marked as used. |
| FileSystem.FileSystem.Release | group1/pintos/src/filesys/free-map.c:44-50 | The run is free again; the assertion of the source is the precondition. |
| FreeMap.Scan | group1/pintos/src/lib/kernel/bitmap.c:295-310 | The lowest run of clear bits, or the error exactly if there is none. |
| FreeMap.Contains | group1/pintos/src/lib/kernel/bitmap.c:250-264 | Whether some bit of the range has the value. |
| Malloc.Allocator.Malloc | group1/pintos/src/threads/malloc.c:90-154 | Null exactly for size 0, no page or a wrapped page count of 0; otherwise a block nobody holds, at least as large as asked if and only if the size does not wrap; every held block keeps its size, and exactly the pages asked for are taken. |
| Malloc.Allocator.Free | group1/pintos/src/threads/malloc.c:218-264 | Exactly this block is given up, and an arena goes exactly when no block in it is held any more, and no other. |
| Malloc.Allocator.FreeSmall | group1/pintos/src/threads/malloc.c:227-256 | The block is at the front of its free list, or the whole arena is off the list. |
| Malloc.Allocator.TakeSmall | group1/pintos/src/threads/malloc.c:121-153 | A block from the front of the list, from a new arena if it was empty. |
| Malloc.Allocator.TakeBig | group1/pintos/src/threads/malloc.c:105-120 | Whole pages for one block behind their header. |
| Malloc.Allocator.Carve | group1/pintos/src/threads/malloc.c:137-145 | The loop appends the blocks of a new arena in order. |
| Malloc.Allocator.Unlink | group1/pintos/src/threads/malloc.c:247-251 | The loop takes exactly the blocks of the arena off the free list. |
| Malloc.Allocator.Find | group1/pintos/src/threads/malloc.c:100-104 | The smallest descriptor that holds the request. |
| Malloc.PageCntHolds | group1/pintos/src/threads/malloc.c:109 | The page count holds header and request, or is 0, if and only if size plus header does not exceed 2^32. |
| Malloc.WrappedRequest | group1/pintos/src/threads/malloc.c:109 | The concrete failure: the largest size gets one page. |
| Malloc.Init | group1/pintos/src/threads/malloc.c:71-86 | Seven descriptors, from 16 to 1024 bytes. |
| MallocRuns.Memory.Run | group1/pintos/src/threads/malloc.c:90-264 | After any sequence of mallocs and frees on the page allocator: lists, counts and the split into free and held are sound; the held blocks are apart from each other and from every arena header and hold the size asked for if and only if it does not wrap; and once all are given back, so is every page. |
| MallocRuns.Memory.Alloc | group1/pintos/src/threads/malloc.c:90-154 | malloc with the pages of the pool fails exactly if there is no free run of them, or for size 0 or a wrapped page count of 0. |
| MallocRuns.Memory.Release | group1/pintos/src/threads/malloc.c:218-264 | free gives the pages of an arena back exactly with its last block, and they are all marked then, as palloc_free_multiple asserts. |
| MallocRuns.InPool | group1/pintos/src/threads/palloc.c:140 | The pages of an arena lie in the pool and are marked. |
| MallocRuns.Memory.GetPages | group1/pintos/src/threads/palloc.c:70-101 | The lowest free run of pages, now marked, or null exactly if there is none or none is asked for. |
| MallocRuns.PagesTaken | group1/pintos/src/threads/palloc.c:80-87 | A page of the pool is marked exactly if an arena or somebody else has it, also after an arena takes a free run. |
| MallocRuns.PagesGiven | group1/pintos/src/threads/palloc.c:117-142 | And after an arena gives its pages back. |
| MallocRuns.ClearIsFree | group1/pintos/src/threads/palloc.c:70-101 | A run of clear bits is pages that no arena has. |
| MallocSpec.BlockIsAligned | group1/pintos/src/threads/malloc.c:276-279 | The addresses of the blocks of an arena are exactly those that pass the alignment check and fit behind the header. |
| MallocSpec.ChecksHold | group1/pintos/src/threads/malloc.c:270-280 | The assertions of block_to_arena hold of every held block. |
| MallocSpec.LiveApart | group1/pintos/src/threads/malloc.c:90-154 | In every state that satisfies the invariant the bytes of two held blocks do not overlap. |
| MallocSpec.HeaderApart | group1/pintos/src/threads/malloc.c:90-154 | Nor do those of a block and an arena header. |
| MallocSpec.ArenaIsNeeded | group1/pintos/src/threads/malloc.c:241-253 | Every arena has a held block. |
| MallocSpec.PopKeeps | group1/pintos/src/threads/malloc.c:148-151 | Handing out the first free block keeps lists, counts and the split into free and held. |
| MallocSpec.PushKeeps | group1/pintos/src/threads/malloc.c:238-242 | So does taking a block back. |
| MallocSpec.DropKeeps | group1/pintos/src/threads/malloc.c:241-253 | So does returning a page whose count is full, and no block of it is held. |
| MallocSpec.CarveKeeps | group1/pintos/src/threads/malloc.c:125-146 | So does a new arena. |
| MallocSpec.BigKeeps | group1/pintos/src/threads/malloc.c:105-120 | So does a big block. |
| MallocSpec.BigFreeKeeps | group1/pintos/src/threads/malloc.c:257-262 | And returning one. |
| MallocSpec.BlocksApart | group1/pintos/src/threads/malloc.c:287-294 | Blocks of one arena do not overlap. |
| MallocSpec.BlockAt | group1/pintos/src/threads/malloc.c:269-294 | arena_to_block stays in the page behind the header, so block_to_arena inverts it. |
| Mlfqs.Scheduler.TimerInterrupt | group1/pintos/src/devices/timer.c:231-249 | Every interrupt keeps load_avg in [0, N] and every recent_cpu in [-20(2N+1), 120(2N+1)], with no 32-bit or 64-bit step out of range, for every N up to 136; and what it does to each thread. |
| Mlfqs.Scheduler.DoRecalculate | group1/pintos/src/threads/thread.c:602-613 | The loop recalculates every thread but the idle one. |
| Mlfqs.Scheduler.CalculateLoadAvg | group1/pintos/src/threads/thread.c:574-587 | The next load average, without overflow. |
| Mlfqs.Scheduler.CalculateRecentCpu | group1/pintos/src/threads/thread.c:559-572 | The next recent_cpu, without overflow. |
| Mlfqs.Scheduler.CalculatePriority | group1/pintos/src/threads/thread.c:532-557 | The clamped priority, without overflow. |
| Mlfqs.Scheduler.SetNice | group1/pintos/src/threads/thread.c:449-470 | Clamps the value, recomputes this priority and touches no other thread. |
| Mlfqs.Scheduler.Create | group1/pintos/src/threads/thread.c:703-727 | A new thread starts inside the bounds. |
| Mlfqs.NextLoad | group1/pintos/src/threads/thread.c:574-587 | Stays in [0, N] despite the truncated constants. |
| Mlfqs.NextCpu | group1/pintos/src/threads/thread.c:559-572 | Shrinks enough to leave room for the 100 ticks of the next second. |
| Mlfqs.Decay | group1/pintos/src/threads/thread.c:566-569 | The fixed-point weight is at most 2N/(2N+1). |
| Mlfqs.LoadTracksIdeal | group1/pintos/src/threads/thread.c:574-587 | On every run the fixed-point load average is at most the exact one and below it by at most (44 N + 120) / 65536. |
| Mlfqs.NextLoadError | group1/pintos/src/threads/fixed-point.h:40-47 | The rounding error of one sample. |
| Mlfqs.PriorityMonotone | group1/pintos/src/threads/thread.c:532-557 | More processor time or a higher nice value never gives a higher priority. |
| Mlfqs.NextCpuError | group1/pintos/src/threads/thread.c:559-572 | One recalculation is 2 load / (2 load + 1) of recent_cpu plus nice in exact arithmetic, up to one unit and one for every 65536 of it. |
| Mlfqs.PriorityError | group1/pintos/src/threads/thread.c:532-557 | The priority is 63 - recent_cpu / 4 - 2 nice, cut off at 0 and 63, up to rounding to the nearest integer. |
| Mlfqs.StepMeans | group1/pintos/src/devices/timer.c:231-249 | What an interrupt does to a thread, in exact numbers: one more tick for the running one, the decay at every hundredth, and a priority that is up to date then and every fourth tick. |
| HeapSort.Sort | group1/pintos/src/lib/stdlib.c:131-152 | For every total preorder, an ordered permutation of the input. |
| HeapSort.Heapify | group1/pintos/src/lib/stdlib.c:96-123 | Makes the subtree a heap, permuting the heap part only. |
| HeapSort.FloatDown | group1/pintos/src/lib/stdlib.c:119-121 | One step down keeps the heap everywhere but below the floating element. |
| HeapSort.RootIsMax | group1/pintos/src/lib/stdlib.c:147-151 | The root of a heap is its largest element. |
| HeapSort.PlaceRoot | group1/pintos/src/lib/stdlib.c:147-151 | Swapping the root behind the heap puts it in its final place. |
| HeapSort.Largest | group1/pintos/src/lib/stdlib.c:103-113 | The largest of an element and its children, at the edge of the heap too. |
| HeapSort.BinarySearch | group1/pintos/src/lib/stdlib.c:184-207 | A match, or null exactly if there is none. |
| HeapSort.SortAndFind | group1/pintos/src/lib/stdlib.c:131-207 | Searching the sorted array finds a match exactly if the unsorted one had one. |
| Donate.CheckToDonate | group1/pintos/src/threads/synch.c:249-261 | If only the edge out of the caller may be violated, then afterwards no holder is below its waiter, exactly the threads down the chain are raised to the donated priority, none is lowered, and the walk ends on cycles too. |
| Donate.ChainRises | group1/pintos/src/threads/synch.c:249-261 | Priorities never fall along a chain of holders once no edge is violated. |
| Ustar.MakeHeader | group1/pintos/src/lib/ustar.c:82-120 | Fails exactly if the stripped name is longer than 99 bytes, leaving the header; otherwise the header is composed and parses back to the stripped name, type and size. |
| Ustar.RoundTrip | group1/pintos/src/lib/ustar.c:181-227 | Parsing a composed header gives name, type and size, with size 0 for directories; a regular file with a negative size is refused as too large, and only that. |
| Ustar.ParseHeader | group1/pintos/src/lib/ustar.c:181-227 | The result of the checks in their order; every returned name is social and every size an int. |
| Ustar.ParsedIsSocial | group1/pintos/src/lib/ustar.c:65-73 | No header, however made, yields a name with a leading slash or parent reference. |
| Ustar.HeaderLayout | group1/pintos/src/lib/ustar.c:82-120 | Every field of a composed header by its offset and bytes. |
| Ustar.AcceptedExactly | group1/pintos/src/lib/ustar.c:181-227 | Which headers are taken for an entry, of which type and size, and which end the archive, by their bytes. |
| Ustar.OneChangeIsNoticed | group1/pintos/src/lib/ustar.c:181-227 | A header with one changed byte outside the checksum field is refused. |
| Ustar.FormatOctal | group1/pintos/src/lib/stdio.c:468-540 | The digit loop and the zero padding print the fixed-width octal number. |
| Ustar.ParseOctalField | group1/pintos/src/lib/ustar.c:129-162 | The loop computes the specified reading of the field. |
| Ustar.CalculateChksum | group1/pintos/src/lib/ustar.c:36-54 | The sum with the checksum field as spaces. |
| Ustar.StripPrefixes | group1/pintos/src/lib/ustar.c:65-73 | The loop over slashes computes the stripped name. |
| Ustar.IsAllZeros | group1/pintos/src/lib/ustar.c:166-172 | Whether the block is all zeros. |
| UstarSpec.ParseOctalMeaning | group1/pintos/src/lib/ustar.c:129-162 | Digits and a terminator read as their value if and only if that fits an unsigned long. |
| UstarSpec.ParseOctalExactly | group1/pintos/src/lib/ustar.c:129-162 | A field is read if and only if it is digits, at least one, and a space or null behind them, and the value fits. |
| UstarSpec.OctalValue | group1/pintos/src/lib/stdio.c:468-540 | Printing in octal and evaluating are inverse. |
| UstarSpec.StripWorks | group1/pintos/src/lib/ustar.c:65-73 | The result is social and a suffix or ".", and a name is unchanged if and only if it is social. |
| UstarSpec.StripOnePrefix | group1/pintos/src/lib/ustar.c:65-73 | Each of the three prefixes goes, and what is empty or ".." behind them becomes ".". |
| UstarSpec.StripTwice | group1/pintos/src/lib/ustar.c:65-73 | Stripping is idempotent. |
| UstarSpec.SumStable | group1/pintos/src/lib/ustar.c:36-54 | The checksum does not depend on what the checksum field holds. |
| UstarSpec.SumOfOneChange | group1/pintos/src/lib/ustar.c:36-54 | Any other byte changes it by as much as it changes. |

## Left out

- Sockets, worker threads, message framing and the client: requests and answers are values.
- Concurrency: requests on one server and transactions on one master run one at a time, and kernel code runs with interrupts off as in the source.
- TpcRuns.Agreement: stated for runs in which no commit spoils a slave, which TpcRuns.RunKeepsInv, TpcRuns.DeliveryAgrees and TpcRuns.FalseRecordDisagrees show to be needed and TpcOrderly.OrderlyRunAgrees gives a condition on the environment for; a step without a defined outcome ends a run.
- TpcMaster.HandleTpc: a slave that crashes while it votes is in TpcRuns only; for a slave whose vote was not logged, its state at the end is stated, not a table of its store.
- Tpc.Handle: one directory, there or not for the whole of one message; log files that exist can be read, and store files too.
- Tpc.CrashRecovery: a log entry without a value is taken to be followed by a NUL in memory; committing a deletion, and a repeated commit, copy what follows the entry (kvserver.c:259-261 and 417-419) and use none of it.
- Tpc.RestartIsHarmless: a restart finds the directory there, because kvstore_init makes it, and with the files it held before.
- The slave ring, its registration and the routing of gets.
- KvStore.Store.Put: a file that is opened and not written is excluded, as it is no entry of any map; in Tpc it ends what is defined.
- KvServer.Server.Put: the same.
- KvServer.Server.Execute: the same.
- Doubles as numbers: the tokener keeps their text, and whether sscanf accepts it is a parameter.
- JsonPrinter.ToJson: a double prints the text it was read from, not a formatted number.
- JsonSimulation.TokenerLanguage: nothing is stated once an escape for a high surrogate is read, and which texts sscanf takes for a double is a parameter.
- JsonText.ReadBody: the same escapes are excluded.
- JsonTokener.StepKeepsValid: an escape for a high surrogate stops the model with a separate error, so surrogate pairs are not decoded.
- JsonParser.Tokener.OnePass: the same; the loop over a surrogate pair is left out.
- JsonParser.Tokener.ParseText: the same, for a whole call.
- JsonParser.Tokener.ParseEx: the same, for a call with a length argument.
- JsonChunks.SplitIndependence: nothing is stated for a text with such an escape; in the code a pause inside a surrogate pair shows, because got_hi_surrogate is local to the call.
- JsonChunks.ResumedCall: the same, for whole calls.
- JsonChunks.HarmlessSplit: the same, for runs.
- JsonChunks.StepTwins: the same, for one step.
- Hash functions and cache statistics: hashes are arbitrary functions, and uthash is a map.
- Reference counts, user data and deletion of JSON objects.
- JsonTheorems.PrintedInChunks: numbers and literals end differently and are the subject of JsonTheorems.ScalarInChunks.
- KvServer.Server.Del: keys longer than the limit are excluded, because the code then uses a lock that does not exist.
- KvServer.Server.Serve: the same.
- KvServer.Server.Rebuild: stated where the code's behaviour is defined, which Tpc.Rebuild says exactly.
- KvServer.Server.HandleTpc: the same, as Tpc.Handle says.
- KvServer.Server.ServeAll: the directory stays, and long del keys are excluded.
- LinkHash.Table.Insert: an insert of a key that is already stored is excluded, as its callers do.
- LinkHash.Table.Resize: only the doubling of a loaded table, its one use.
- Div64.Umod64: smod64 has the same 32-bit result type and is not repeated.
- InodeData.Device.ReadAt: offsets are not negative and the request fits the buffer, as callers ensure.
- FileSystem.FileSystem.Create: memory is available, the free map file can be written, and the root directory's own open and close around each call are left out because they cancel.
- FileSystem.FileSystem.Open: memory is available.
- FileSystem.FileSystem.Remove: memory is available.
- FileSystem.FileSystem.InodeCreate: memory is available.
- FileSystem.FileSystem.InodeOpen: memory is available.
- FileSystem.FileSystem.Allocate: the free map file can be written.
- Malloc.Allocator.Malloc: the page allocator is a parameter that returns pages nobody has, or none; MallocRuns.Memory.Alloc puts the real one there. Locks, calloc and realloc are left out.
- MallocRuns.Memory.Run: frees are those of blocks that are held, as callers ensure; only the kernel pool, and the contents of pages are left out.
- Mlfqs.Scheduler.TimerInterrupt: waking sleepers, time slices and thread exit are left out; they change no modelled number.
- Mlfqs.Scheduler.BecomeIdle: the idle thread names itself while its processor time is still within the bound of a fresh sample.
- Donate.CheckToDonate: the ordered donation list and the release of locks are left out.
- HeapSort.Sort: elements are values of any type instead of byte ranges, and indexes do not wrap.
- Ustar.MakeHeader: the message for a name that is too long is not printed.
- Device drivers, context switches, paging, user processes and the exercises in the other directories.

# Gargantua, verified

Gargantua is a web framework in C: a generator reads annotated handlers and emits route tables, type descriptions and
wrappers, and a runtime parses requests, reads and prints JSON, and runs handlers inside nested SQLite transactions.
This project is a Dafny model of the parts of it that are state machines, in-place byte loops and bookkeeping across
calls, with proofs of what they are for.  `dafny verify dfyconfig.toml` checks all of it.

Loops, mutable objects and in-place algorithms of the source are methods and classes here; each is proved equal to a
specification function or states its property outright, and the lemmas are about those specifications.  What the
environment decides (whether memory or a lock is granted, how SQLite answers, how receives split a stream, what the
clock shows) is a parameter, so a statement about all parameters is a statement about all runs.

## What is where

- JSON.  `JsonGrammar` is RFC 8259 as concrete syntax trees and mentions no parser; `JsonMeaning` says what trees mean,
  the limits, and the token array of a tree.  `JsonScan` has the scanners, `JsonParser` a recursive parser,
  `JsonParserProof` relates it to the grammar in both directions, `JsonMachine` and `JsonEngine` prove the explicit-stack
  machine equal to it.  `JsonTree`, `JsonLookup`, `JsonPlaces`, `JsonDecode` and `JsonUnescape` are about the token array,
  lookups and decoding in place, `JsonUnicode` about characters, `JsonPrint` about the sink.
- Structs.  `StructTypes` has type descriptions, memory as bytes (little-endian, LP64) and the value of a struct;
  `StructWriter` and `StructTree` print it, `StructLeaf`, `StructRead`, `StructReader`, `StructBody` and `StructMode` read it,
  `StructRoundTrip` puts both together, `StructPatch` is PATCH merging, and `StructPresence` what a handler is told of a body.
- Transactions.  `Sqlite` is the snapshot-stack semantics of the control statements, `Transactions` the calls of one
  thread, `TransactionRuns` every interleaving of threads, `Dispatch` handlers with nested scopes and throws,
  `Exposure` which of them are all or nothing, `Migrations` and `MigrationFiles` a client of all that.
- HTTP.  `Http` is the request parser as functions, `HttpParser` its loops, `HttpGrammar` the heads of RFC 9112 as a grammar
  that it recognises, `HttpCase` the case of field names, `HttpFraming` the framing lemmas and `HttpStream` the growing
  buffer and the stream of requests.
- Routing.  `Routes`, `RouteTable` and `RouteParams` relate the overlap check, the emission order, the runtime matcher and
  the numbering of path parameters.
- `Arena`, `ClientLimit`, `ConnQueue`, `ServerRuns`, `Nesting`, `ModelIncludes`, `Graphs` and `Chunked` are the allocator, the
  server's limits and queue and its protocol, the two dependency passes and the chunked decoder.
- `GuardTokens` has the words and braces of source lines, `TransactionGuard` the block scanner, and `GuardText` says what it
  reports in characters.

## Where code and expectation differ

- An outermost transaction scope is not always all or nothing.  A nested scope can end in order with the whole
  transaction gone, and later statements of the outer scope then take effect one by one: SQLite ends the transaction when
  an inner statement fails, or its rollback fails (`Exposure.EndedInside`), or the inner scope is left early after a
  failure, with no fault of SQLite at all (`Exposure.LeftInside`).  `Exposure.ExactlyUnexposed` says for which handlers
  this can happen, and that all others are all or nothing.
- The failed level can exceed the depth, after a rollback of a transaction that SQLite has ended
  (`Transactions.FailedWithinDepth`, `Transactions.StaleFailure`).
- A failure can be forgotten.  A stale failed level of a deeper level survives into the next transaction of the thread
  (db_abort_all does nothing at depth 0); a statement that then fails at level 1 is not recorded, and beginning and rolling back level 2 clears the record, so
  the commit of level 1 succeeds (`TransactionRuns.FailureForgotten`; `TransactionRuns.FailureForbidsCommit` has the exact
  condition, and `TransactionRuns.FailedWithinRuns` says when it cannot arise).
- db_script has no guard against a transaction that SQLite has ended (`TransactionRuns.ScriptEscapes`,
  `TransactionRuns.OnlyScripts`), so a failed migration leaves what the first such script left on the disk, and the disk
  unchanged exactly when that is the same (`Migrations.ApplyMigrations`), and a script may write into the table of
  migration records (`Migrations.TamperingScript`, `Migrations.OwnRecordOnly`).
- A message of 4096 bytes or more, or one that leaves less than 8192 bytes below the limit of the buffer, is refused or
  read depending on how it is split: read_request gives up after 4096 receives and always reserves 8192 bytes
  (`HttpStream.EverySplit`, `HttpStream.BytewiseRefused`, `HttpGrammar.RoundsRunOut`, `HttpGrammar.RoomRunsOut`).
- A reported overlap of patterns need not be real (`Routes.OverlapIsReal`, `Routes.OverlapNotReal`).
- `is_token_char` also accepts byte 0, because `strchr` finds the terminator; the model does the same.

## Model

| member | source | states |
|---|---|---|
| `JsonScan.ReadHex4` | src/http/json.c:69-87 | four hex digits at an index have exactly the value the grammar gives them, and nothing else is accepted |
| `JsonScan.Utf8Advance` | src/http/json.c:89-148 | advances over a character exactly when it is one of UTF8-2, UTF8-3 or UTF8-4 of section 4 of RFC 3629 |
| `JsonScan.ScanString` | src/http/json.c:150-225 | the loop finds the closing quotation mark that the character-by-character specification finds |
| `JsonScan.StringSound` | src/http/json.c:150-225 | every string the scanner accepts is a string of section 7 of RFC 8259 with paired surrogates and well-formed UTF-8 |
| `JsonScan.StringComplete` | src/http/json.c:150-225 | every such string is accepted, and its end is found |
| `JsonScan.ScanNumber` | src/http/json.c:237-302 | the loops of scan_number find the end the number specification gives |
| `JsonScan.NumberSound` | src/http/json.c:237-302 | every accepted number is a number of section 6 of RFC 8259 |
| `JsonScan.NumberComplete` | src/http/json.c:227-302 | every number of the grammar that a delimiter follows is accepted, up to its end |
| `JsonScan.ScanPrimitive` | src/http/json.c:304-335 | numbers and the three words, scanned as specified |
| `JsonScan.PrimitiveSound` | src/http/json.c:304-335 | an accepted primitive is a number or one of true, false, null |
| `JsonScan.PrimitiveComplete` | src/http/json.c:304-335 | every delimited number or word is accepted |
| `JsonParserProof.ValueComplete` | src/http/json.c:337-543 | a value of the grammar within the limits is parsed, to the tokens of its tree in preorder |
| `JsonParserProof.ValueSound` | src/http/json.c:337-543 | whatever is parsed is the text of a value of the grammar within the limits |
| `JsonParserProof.TextSound` | src/http/json.c:545-592 | an accepted text is a document of RFC 8259 with depth at most 128, at most `max` values and keys, at most 256 members per object, raw keys under 128 bytes and no two members of one name |
| `JsonParserProof.TextComplete` | src/http/json.c:545-592 | every such document is accepted, and its tokens are those of its tree |
| `JsonMachine.PushStep` | src/http/json.c:337-370 | opening a container and pushing a frame leaves the outcome of the run unchanged |
| `JsonMachine.PopStep` | src/http/json.c:372-383 | closing the top frame leaves the outcome of the run unchanged |
| `JsonMachine.TopStep` | src/http/json.c:501-543 | a step that only moves the top frame on leaves the outcome of the run unchanged |
| `JsonMachine.LeafStep` | src/http/json.c:32-45 | a token scanned now is the next of the tokens still to come |
| `JsonEngine.DuplicateKey` | src/http/json.c:385-414 | true exactly when the decoded name of the new key is among the names of its object's earlier keys |
| `JsonEngine.Parser.ScanValue` | src/http/json.c:337-370 | keeps the invariant that ties token array and frame stack to the recursive parser |
| `JsonEngine.Parser.ScanObjectKey` | src/http/json.c:416-456 | the same, for a key, refusing the 257th member, a key of 128 bytes and a duplicate |
| `JsonEngine.Parser.ScanArrayElement` | src/http/json.c:458-477 | the same, for an array element or its closing bracket |
| `JsonEngine.Parser.ScanSeparator` | src/http/json.c:479-499 | the same, for a comma or a closing bracket |
| `JsonEngine.Parser.ScanFrame` | src/http/json.c:501-543 | one step of the eight-state machine keeps the invariant, and a refusal means the recursive parser refuses |
| `JsonEngine.Run` | src/http/json.c:545-592 | the explicit-stack loop computes exactly what the recursive parser computes |
| `JsonEngine.JsonParse` | src/http/json.c:545-592 | a positive count exactly on the documents within the limits, and then the token array is the preorder of every document the text spells |
| `JsonTree.ValueSpans` | src/http/json.c:32-45 | spans of tokens lie inside the text and never cross: a later token is inside an earlier container or strictly after it |
| `JsonTree.ValueParents` | src/http/json.c:32-45 | the parent of every token precedes it and belongs to the same tree |
| `JsonLookup.ObjectGet` | src/http/json.c:707-745 | the loop of json_object_get is the search specification |
| `JsonLookup.ObjectGetFinds` | src/http/json.c:707-745 | the value of the unique member of that name, and -1 exactly when no member has it, also after values have been decoded in place |
| `JsonLookup.FindMemberIs` | src/http/json.c:707-745 | with distinct names the member found is the one with that name, whatever its number |
| `JsonDecode.CopyIsDecoded` | src/http/json.c:625-705 | decoding a string of the grammar gives exactly the bytes it stands for, escapes and surrogate pairs included |
| `JsonDecode.RawNameIsName` | src/http/json.c:385-414 | a key within the limit is compared under the name it stands for, cut at the first NUL |
| `JsonDecode.Unread` | src/http/json.c:625-705 | decoding over a token's own bytes never overwrites a byte before it is read |
| `JsonDecode.CopyStr` | src/http/json.c:625-705 | a separate buffer, or the token's own bytes, end up holding the decoded text and a NUL, and no other byte changes |
| `JsonUnicode.Utf8Back` | src/http/json.c:594-623 | every scalar value outside the surrogates is encoded as one well-formed character, and its payload bits, first byte first, are that value |
| `JsonUnicode.Utf8Only` | src/http/json.c:594-623 | every well-formed character is the encoding of its scalar value, so each value has one spelling, the shortest |
| `JsonUnicode.Hex4Is` | src/http/json.c:69-87 | four digits have a value exactly when they are a hexadecimal numeral for it, in either case |
| `JsonUnicode.PairIs` | src/http/json.c:677-696 | two surrogates have a value exactly when they are the upper and the lower ten bits of what it exceeds 0xFFFF by |
| `JsonUnicode.ShortIs` | src/http/json.c:648-676 | the two-character escapes stand for the characters of the table of section 7 of RFC 8259 |
| `JsonUnicode.DecodedSpells` | src/http/json.c:625-705 | a string stands for the UTF-8 text of the characters its pieces mean, in order |
| `JsonUnicode.CopySpells` | src/http/json.c:625-705 | and json_copy_str writes that text |
| `JsonUnicode.UnicodeCopied` | src/http/json.c:677-697 | an escape outside the surrogates becomes the one character of its number |
| `JsonUnicode.PairCopied` | src/http/json.c:677-697 | two escapes of a surrogate pair become the one character of the pair |
| `JsonUnicode.Euro` | src/http/json.c:594-623 | the escape of the euro sign becomes E2 82 AC |
| `JsonUnicode.Spelling` | src/http/json.c:304-335 | the digits and the three words, letter by letter |
| `JsonUnicode.JsonCharacters` | src/http/json.c:47-67 | white space, hexadecimal digits and the control characters with an escape of their own, by character |
| `JsonUnescape.HasNoNul` | src/runtime/runtime_body.c:66-98 | the scan of string_has_no_nul, as specified |
| `JsonUnescape.NoNulIs` | src/runtime/runtime_body.c:66-98 | a string passes exactly when what it stands for has no NUL |
| `JsonUnescape.UnescapeInPlace` | src/runtime/runtime_body.c:100-109 | refused without a change, or decoded in place with a NUL within the closing quotation mark |
| `JsonUnescape.Unescaped` | src/runtime/runtime_body.c:100-109 | on a string of the grammar the decoded text is complete, never cut short |
| `JsonUnescape.OthersStand` | src/runtime/runtime_body.c:100-109 | decoding one string leaves the bytes of every other string and primitive as they were |
| `JsonPlaces.IntactAfter` | src/runtime/runtime_body.c:300-376 | changing one member's value in place leaves every key and every other value of the object |
| `JsonPlaces.FoundPlaced` | src/http/json.c:707-745 | the token found for a name is the token of that member's value, followed by its subtree and nothing else |
| `JsonPrint.EscapeRoundTrip` | src/runtime/runtime.c:160-220 | what sink_add_escaped prints for UTF-8 text is a JSON string that stands for the same text |
| `JsonUnicode.EscapeIs` | src/runtime/runtime.c:160-220 | a byte that may stand as it is is printed as it is; quotation mark, reverse solidus, LF, CR and TAB get the escape of the table, every other control a numeral in lower case |
| `JsonPrint.DigitsBack` | src/runtime/runtime.c:222-258 | printed digits have the value that was printed |
| `JsonPrint.Sink.AddBytes` | src/runtime/runtime.c:109-127 | appends the bytes, or overflows exactly when they and the final NUL do not fit |
| `JsonPrint.Sink.Put` | src/runtime/runtime.c:137-154 | the same, for one byte |
| `JsonPrint.Sink.AddEscaped` | src/runtime/runtime.c:160-220 | appends the escaped text, cut at 1 MiB, in runs between escapes |
| `JsonPrint.Sink.AddInt` | src/runtime/runtime.c:222-258 | appends the decimal text of any long, the most negative one included |
| `StructTypes.TypeValidIs` | src/runtime/runtime.c:56-94 | type_valid accepts exactly the well-shaped types of at most 8 levels and 4096 structs, and uses up one of the budget per struct |
| `StructTypes.LittleEndianBack` | src/runtime/runtime.c:260-290 | an integer written to memory is read back |
| `StructTypes.MemoryIs` | src/runtime/runtime.c:260-290 | an int is four bytes and a long eight, least first, in two's complement; any byte but 0 is true |
| `StructWriter.WriteScalar` | src/runtime/runtime.c:323-381 | prints the value the field's bytes stand for, null for an absent one |
| `StructWriter.WriteNested` | src/runtime/runtime.c:383-417 | prints the whole struct or reports overflow, exactly when it does not fit; on a valid type the depth guard never fires |
| `StructWriter.WriteStruct` | src/runtime/runtime.c:419-438 | succeeds on a valid type exactly when text and NUL fit, and leaves the empty string otherwise |
| `StructTree.TreeText` | src/runtime/runtime.c:383-417 | the printed text is a JSON object of the grammar |
| `StructLeaf.StrtolNumber` | src/http/json.c:833-848 | strtol reads a JSON number to its end exactly when it is an integer, and in range |
| `StructLeaf.TokenLongIs` | src/http/json.c:816-848 | a token gives an integer exactly when its value is a whole number under 128 bytes and in range |
| `StructLeaf.TokenBoolIs` | src/http/json.c:867-885 | a token gives a boolean exactly when it is true or false |
| `StructLeaf.NullTokenIs` | src/runtime/runtime_body.c:327-328 | the four-byte test finds exactly the value null |
| `StructLeaf.LeafHeldIs` | src/core/nullable.c:41-77 | a field whose bytes were stored for a value reads back as that value |
| `StructReader.ReadText` | src/runtime/runtime_body.c:163-187 | a text field takes exactly the NUL-free strings, decoded where they stand |
| `StructReader.ReadScalar` | src/runtime/runtime_body.c:189-258 | each kind of field takes exactly the values meant for it |
| `StructReader.ReadLeaf` | src/runtime/runtime_body.c:327-371 | accepts exactly what the field's kind, flags and rules allow, stores it, and changes no byte outside the field and the member's text |
| `StructRead.FilledStable` | src/runtime/runtime_body.c:300-376 | fields already read stay as read while others are |
| `StructRead.KeysFineMembers` | src/runtime/runtime_body.c:267-298 | the walk over the keys refuses exactly an object with a key that has a NUL or names no field |
| `StructRead.KeysOkIs` | src/runtime/runtime_body.c:267-298 | the keys are accepted exactly when each is without NUL and the name of a field |
| `StructRead.UndeclaredRefused` | src/runtime/runtime_body.c:267-298 | a body with any other key is refused, whatever else is in it |
| `StructRead.EmptyBody` | src/runtime/runtime_body.c:299-318 | an object without members is refused exactly for a field that may not be missing, and in a PATCH not even for that |
| `StructBody.CheckKeys` | src/runtime/runtime_body.c:267-298 | the loop over the tokens is that walk |
| `StructBody.GetIs` | src/runtime/runtime_body.c:309-309 | between decodings, looking up a field finds its member and no other |
| `StructBody.BodyReader.ReadField` | src/runtime/runtime_body.c:300-376 | one field: accepted as specified, recorded, and filled or left alone |
| `StructBody.BodyReader.ReadNested` | src/runtime/runtime_body.c:260-378 | success exactly on acceptable bodies; every field mentioned then holds the body's value and every other byte of the struct is unchanged |
| `StructMode.EntriesFit` | src/runtime/runtime_body.c:319-322 | a body mentions fewer fields than it has tokens, so the record of 256 never runs out |
| `StructMode.RequestBody.ReadMode` | src/runtime/runtime_body.c:380-413 | a body is accepted exactly when it is a document within the limits that the type accepts and, unless partial, the struct then validates; a refused body leaves no record |
| `StructPresence.BodyHasKey` | src/runtime/runtime_body.c:131-145 | true exactly when the record has an entry of that path |
| `StructPresence.BodyIsNull` | src/runtime/runtime_body.c:147-161 | what such an entry says, and false without one |
| `StructPresence.PresenceIs` | src/runtime/runtime_body.c:131-161 | a dotted path is in the record of a body exactly when it is the path of a field, through nested structs, and the body has a member at each step; it is null exactly when the value at its end is null |
| `StructRoundTrip.LeafBack` | src/runtime/runtime.c:323-381 | a printed leaf is read back as the same leaf |
| `StructRoundTrip.PrintedAccepted` | src/runtime/runtime_body.c:260-378 | the reader accepts what the writer prints for a valid struct |
| `StructRoundTrip.PrintedFilled` | src/runtime/runtime_body.c:260-378 | and fills the struct with the value that was printed |
| `StructRoundTrip.PrintedLimits` | src/http/json.c:545-592 | a printed struct is within the parser's limits on depth, members and keys exactly when no field name has 128 bytes |
| `StructRoundTrip.PrintThenRead` | src/runtime/runtime_body.c:415-418 | printing a valid struct and reading the text gives the same value, whenever it fits the sink, has at most 256 tokens and no name of 128 bytes |
| `StructPatch.PatchApply` | src/runtime/runtime_body.c:420-441 | refused without touching the target, or exactly the bytes of the mentioned leaves come from the changes and the result is validated |
| `StructPatch.PatchMerges` | src/runtime/runtime_body.c:420-441 | every leaf at any depth gets the body's value if mentioned, null clearing it, and keeps its value otherwise |
| `StructPatch.PatchTwice` | src/runtime/runtime_body.c:420-441 | the bytes after a second application are those after the first |
| `StructPatch.ReadThenPatch` | src/runtime/runtime_body.c:380-441 | a PATCH request as a whole: read exactly when acceptable, and merged as said |
| `Transactions.BeginPushes` | src/db/db_sqlite.c:898-925 | db_begin pushes the present contents on the stack of snapshots, or leaves the levels as they are |
| `Transactions.CommitPops` | src/db/db_sqlite.c:927-949 | the outermost commit makes the contents durable, an inner one forgets its level only; success exactly when no failure is recorded and the transaction lives |
| `Transactions.RollbackRestoresLevel` | src/db/db_sqlite.c:951-988 | a rollback restores exactly the contents at the matching begin |
| `Transactions.AbortClears` | src/db/db_sqlite.c:990-1010 | whatever the engine does, no transaction, depth, failure or lock remains |
| `Transactions.ExecuteWrites` | src/db/db_sqlite.c:301-438 | a statement changes the open transaction, or the disk when there is none; one that fails inside a transaction records its level unless a failure is recorded already, and outside one nothing |
| `Transactions.ScriptWrites` | src/db/db_sqlite.c:1028-1067 | a statement of a script writes to the open transaction, and to the disk when it is gone; a failure is not recorded |
| `Transactions.FailedWithinDepth` | src/db/db_sqlite.c:951-988 | every call keeps the failed level within the depth, but for db_rollback, which breaks it exactly when SQLite has ended the transaction and an outer level had failed |
| `Transactions.StaleFailure` | src/db/db_sqlite.c:973-980 | such a state is reached |
| `Transactions.Session.DbLock` | src/db/db_sqlite.c:72-102 | succeeds inside a transaction, and else when the mutex is free and granted |
| `Transactions.Session.DbUnlock` | src/db/db_sqlite.c:104-110 | gives the mutex back at depth 0 only |
| `Transactions.Session.DbBegin` | src/db/db_sqlite.c:898-925 | on the variables of the file: lock, guards, BEGIN or SAVEPOINT and depth in the order of the source, with the effect of BeginPushes |
| `Transactions.Session.DbCommit` | src/db/db_sqlite.c:927-949 | the same for COMMIT or RELEASE: depth and lock change only after success, with the effect of CommitPops |
| `Transactions.Session.DbRollback` | src/db/db_sqlite.c:951-988 | the same for ROLLBACK: failed level and depth are set as RollbackRestoresLevel and FailedWithinDepth describe |
| `Transactions.Session.DbAbortAll` | src/db/db_sqlite.c:990-1010 | rolls back, gives the connection up if that fails, and clears depth, failure and lock, as AbortClears describes |
| `Transactions.Session.DbExecute` | src/db/db_sqlite.c:385-438 | lock, guards, statement and failure mark in the order of the source, with the effect of ExecuteWrites |
| `TransactionRuns.StartInv` | src/db/db_sqlite.c:72-110 | the state before db_open satisfies the invariant, with every failed level within its depth |
| `TransactionRuns.StepInv` | src/db/db_sqlite.c:72-110 | every step of every thread keeps it |
| `TransactionRuns.MutualExclusion` | src/db/db_sqlite.c:72-110 | over every interleaving at most one thread is inside a transaction, and it holds the lock |
| `TransactionRuns.DiskChanges` | src/db/db_sqlite.c:898-1067 | durable state changes only at an outermost commit, at a statement outside any transaction, or at a script statement after SQLite ended the transaction |
| `TransactionRuns.OnlyScripts` | src/db/db_sqlite.c:1028-1067 | a step changes durable state against that rule exactly when it is a statement of db_script that writes other contents after the transaction was lost |
| `TransactionRuns.ScriptEscapes` | src/db/db_sqlite.c:1028-1067 | the last case is reached: db_script has no guard |
| `TransactionRuns.LevelsKept` | src/db/db_sqlite.c:898-988 | while a thread stays deeper, the snapshots of its outer levels are kept or the transaction is lost for good |
| `TransactionRuns.RollbackRestores` | src/db/db_sqlite.c:951-988 | over whole runs a rollback restores exactly the contents at the matching begin |
| `TransactionRuns.FailureSticks` | src/db/db_sqlite.c:927-988 | over whole runs: while a failure is recorded at a level or further out, no commit succeeds until that level or an outer one is rolled back or all is aborted |
| `TransactionRuns.FailureForbidsCommit` | src/db/db_sqlite.c:385-438 | after a statement that fails at a level, no run has a commit of that thread succeed before that level or an outer one is rolled back or all is aborted, exactly unless a deeper failure is still recorded, the transaction lives and a level can be begun |
| `TransactionRuns.FailureForgotten` | src/db/db_sqlite.c:951-1010 | that exception is reached from a closed database: a commit makes a write durable although a statement of its own level has failed |
| `TransactionRuns.LostTakesNoEffect` | src/db/db_sqlite.c:329-336 | once SQLite has ended the transaction, over every run without scripts in which the thread stays inside it, every prepared statement is refused and the disk stays as it was |
| `TransactionRuns.FailedWithinRuns` | src/db/db_sqlite.c:898-1067 | over every run in which nothing ends the transaction, the failed level of every thread stays within its depth |
| `Dispatch.NothingLeftOpen` | src/runtime/runtime_api.c:501-524 | for every handler, when dispatch_route returns the depth is 0, the lock is free and no transaction is open; a request that has not failed had left nothing open |
| `Dispatch.OutermostScope` | src/runtime/runtime_api.c:526-588 | what an outermost scope leaves on the disk: exactly its writes when the request has not failed, and otherwise exactly the writes made inside it after its transaction was gone |
| `Exposure.BlockSound` | src/runtime/runtime_api.c:526-588 | every run of a block ends as the analysis of the handler foresees, for every answer of the engine: where it can be when it ends in order or is left early, and that only an exposed block writes astray |
| `Exposure.MakeStray` | src/runtime/runtime_api.c:526-588 | conversely, a block that the analysis calls exposed has answers of the engine under which a write goes astray |
| `Exposure.ExactlyUnexposed` | src/runtime/runtime_api.c:526-588 | an outermost scope is all or nothing for every request and all answers of the engine exactly when the handler, read without those answers, cannot come to a statement behind a nested scope that can end in order with everything gone; the same for every engine that ends no transaction by itself and whose rollbacks succeed |
| `Exposure.EndedInside` | src/runtime/runtime_api.c:548-574 | the first cause: an inner failure ends the transaction, the inner scope is over, and the outer one writes outside any transaction |
| `Exposure.LeftInside` | src/runtime/runtime_api.c:576-588 | the second: an inner scope is left early after a failure, which aborts everything, and the outer one writes |
| `Dispatch.AbortAddsNothing` | src/runtime/runtime_api.c:501-524 | the dispatcher's final abort leaves the disk as the handler left it |
| `Dispatch.Runtime.TransactionBegin` | src/runtime/runtime_api.c:526-541 | no scope in a failed request; otherwise db_begin, and a raise when it fails: the BeginScope of the lemmas |
| `Dispatch.Runtime.TransactionEnd` | src/runtime/runtime_api.c:548-574 | commit, roll back or abort by failure status and level: the EndScope of the lemmas |
| `Dispatch.Runtime.TransactionCleanup` | src/runtime/runtime_api.c:576-588 | a scope left early aborts everything and fails the request: the CleanupScope of the lemmas |
| `Migrations.NoOtherRecords` | src/db/migrate.c:111-146 | as many records as known files of different versions means there are no other records |
| `Migrations.AllRecorded` | src/db/migrate.c:111-146 | when scripts leave the records alone, the records end up as all the files and each missing script has run once, in order |
| `Migrations.OwnRecordOnly` | src/db/db_sqlite.c:1094-1137 | a migration adds its own record and no more exactly when its script leaves the records alone |
| `Migrations.TamperingScript` | src/db/migrate.c:111-146 | a script that writes a record of its own makes a success whose records are not the files |
| `Migrations.DbMigration` | src/db/db_sqlite.c:1094-1137 | recorded as it is, not recorded, or an error; in apply mode script and record, or no success |
| `Migrations.CheckAll` | src/db/migrate.c:123-131 | succeeds only if exactly the first files are recorded, identical in name and text |
| `Migrations.ApplyRest` | src/db/migrate.c:132-139 | applies the remaining files in order or reports failure |
| `Migrations.EscapeFails` | src/db/migrate.c:132-139 | a pending script that loses its transaction makes the run a failure |
| `Migrations.ApplyMigrations` | src/db/migrate.c:111-146 | success means the records were the first k files and the rest have been applied; a failure leaves the disk unchanged or as the first pending script that loses its transaction on its own contents leaves it; when no other statement fails it succeeds exactly when all can be applied, and leaves exactly that otherwise |
| `MigrationFiles.MigrationVersion` | src/db/migrate.c:27-61 | reads at most ten digits, refuses what overflows an int, and agrees with VersionOf on every name |
| `MigrationFiles.VersionOfName` | src/db/migrate.c:27-61 | every name of digits, two underscores, a title and .sql has the version of its digits |
| `MigrationFiles.VersionMeansName` | src/db/migrate.c:27-61 | and no other name has a version |
| `MigrationFiles.LoadFiles` | src/db/migrate.c:148-230 | succeeds exactly on loadable directories and returns every wanted file once, in strictly increasing order of version |
| `MigrationFiles.LoadedAre` | src/db/migrate.c:176-219 | the files loaded are exactly the entries not hidden and ending in .sql, each with its version, name and text |
| `MigrationFiles.Spelling` | src/db/migrate.c:44-49 | the two underscores and the suffix, letter by letter |
| `MigrationFiles.MigrateRun` | src/db/migrate.c:148-242 | the same for a directory: refused without a change when its files cannot be loaded, and otherwise as ApplyMigrations does with its files in order of version |
| `HttpParser.HeaderEnd` | src/http/http.c:311-326 | finds the first blank line |
| `HttpParser.ParseContentLength` | src/http/http.c:99-123 | accepts exactly the decimal numbers that fit a long |
| `HttpParser.ParseRequestLine` | src/http/http.c:57-97 | the cursor loops compute the request line that HttpGrammar relates to the grammar |
| `HttpParser.HeaderCounts.CountKnownHeader` | src/http/http.c:216-253 | the counters refuse exactly the headers that may not follow those seen; names are compared as SameNameIs says |
| `Http.SameNameIs` | src/http/http.c:125-129 | two field names are the same exactly when they are equal but for the case of ASCII letters |
| `Http.SameButCaseIsEquivalence` | src/http/http.c:125-129 | which is an equivalence |
| `Http.TokenCharIs` | src/http/http.c:12-20 | token characters are the visible ASCII characters without the delimiters of section 5.6.2 of RFC 9110, and NUL |
| `Http.Spelling` | src/http/http.c:222-247 | the version, the field names and the delimiters, letter by letter |
| `HttpParser.ParseHeaderLines` | src/http/http.c:255-309 | the loop over header lines computes the headers that HttpGrammar relates to the grammar, with the length they announce |
| `HttpParser.HttpParseRequest` | src/http/http.c:328-374 | the whole parser is the specification that the grammar and framing lemmas are about |
| `HttpGrammar.FieldComplete` | src/http/http.c:141-195 | every field line of section 5 of RFC 9112 is parsed to its name and its value without the blanks around it |
| `HttpGrammar.FieldSound` | src/http/http.c:141-195 | whatever is parsed as a header line is such a field line |
| `HttpGrammar.AcceptableIs` | src/http/http.c:216-253 | the test on each header keeps exactly the header lists without a repeated singleton, in any case, and with usable Host and Content-Length |
| `HttpGrammar.HeadComplete` | src/http/http.c:57-309 | every head of sections 3 and 5 of RFC 9112 within the limits is parsed to its method, target, version and fields, whatever follows it |
| `HttpGrammar.HeadSound` | src/http/http.c:57-309 | whatever is parsed is the text of such a head |
| `HttpGrammar.HeadVerdict` | src/http/http.c:57-309 | a request line and field lines that may not stand together are refused |
| `HttpGrammar.MessageComplete` | src/http/http.c:328-374 | a head of at most 32 KiB and the body it announces are accepted, as that request |
| `HttpGrammar.MessageIs` | src/http/http.c:328-374 | the byte strings accepted as one whole request are exactly those messages |
| `HttpCase.CaseBlind` | src/http/http.c:255-374 | writing the field names of a head in another case changes neither the verdict nor the request line, the announced length and the body, whatever follows |
| `HttpGrammar.JudgeIs` | src/server/server_http.c:107-132 | a whole message is refused with -2 for a body over 8 MiB, else with -3 for an expectation other than 100-continue of HTTP/1.1, else delivered |
| `HttpGrammar.JudgeWaits` | src/server/server_http.c:107-132 | without a blank line the server waits, and refuses with -1 beyond 32 KiB |
| `HttpStream.Spelling` | src/server/server_http.c:60-86 | 100-continue, letter by letter |
| `HttpFraming.HeadLocal` | src/http/http.c:57-97 | the CRLFCRLF scan and the line parser agree on where the headers end, whatever follows |
| `HttpFraming.VerdictStands` | src/http/http.c:328-374 | OK and ERROR are unchanged by any extension of the buffer |
| `HttpFraming.PrefixNeedsMore` | src/http/http.c:328-374 | every proper prefix of an accepted message is NEED_MORE |
| `HttpFraming.MessageAlone` | src/http/http.c:328-374 | an accepted message is what its own bytes parse to |
| `HttpStream.SplitIndependent` | src/server/server_http.c:89-162 | for every stream whose messages have at most 4095 bytes and leave 8192 below the buffer limit, and every way receives split it, the requests served are those of the whole stream; the reason for ending too when what follows them fits |
| `HttpStream.TwoSplits` | src/server/server_http.c:89-162 | any two splits of such a stream serve the same requests |
| `HttpStream.ServesPrefix` | src/server/server_http.c:89-162 | whatever the split, the interruptions and the limits, the requests served are a first part of those the whole stream holds |
| `HttpStream.ReadComplete` | src/server/server_http.c:89-162 | a message that fits is read before the rounds and the room run out |
| `HttpStream.EverySplit` | src/server/server_http.c:89-162 | a message is read under every split exactly when it has at most 4095 bytes and leaves 8192 bytes below the limit |
| `HttpStream.BytewiseRefused` | src/server/server_http.c:103-161 | any other message is refused when it comes byte by byte: with -2 for want of room, with -1 for want of rounds |
| `HttpStream.LastByteRefused` | src/server/server_http.c:134-137 | a message that leaves less than 8192 bytes is refused while its last byte is outstanding |
| `HttpStream.OnePiece` | src/server/server_http.c:89-162 | and yet read when it comes in one piece |
| `HttpGrammar.RoundsRunOut` | src/server/server_http.c:103-103 | a message of 4096 bytes read in one piece and refused in one-byte receives |
| `HttpGrammar.RoomRunsOut` | src/server/server_http.c:134-137 | a message read in one piece and refused with its last byte outstanding |
| `HttpStream.ReadRequest` | src/server/server_http.c:89-162 | the loop on the growing buffer computes the bounded reader: the request, or the refusal and its code, 4096 rounds without a verdict included |
| `HttpStream.DynBuf.Reserve` | src/core/dynbuf.c:36-104 | keeps the contents, grows to the need or refuses exactly above the limit |
| `HttpStream.DynBuf.Consume` | src/core/dynbuf.c:106-116 | drops the first bytes and keeps the rest in order |
| `Routes.PathMatches` | src/http/route.c:25-91 | the two-index walk is segment-by-segment matching |
| `RouteParams.MatchUrlIs` | src/http/route.c:25-91 | a pattern matches exactly the URLs of as many segments, each equal to the pattern's or a value of 1 to 63 bytes for a placeholder; the parameters are the values in order; invalid exactly when the first segment not to meet its pattern is a value too long |
| `RouteParams.TrailingSlash` | src/http/route.c:25-56 | a slash at the end opens no further segment, except behind another slash |
| `Routes.PatternsOverlap` | src/generator/generator_validate.c:48-79 | the generator's walk is segment-by-segment overlap |
| `Routes.MatchesOverlap` | src/generator/generator_validate.c:48-79 | two patterns that match one URL are always reported |
| `Routes.OverlapIsReal` | src/http/route.c:58-72 | a reported overlap is real exactly when no fixed segment of 64 bytes or more faces a placeholder |
| `Routes.OverlapNotReal` | src/http/route.c:58-72 | such a pair of patterns |
| `RouteTable.CountBraces` | src/generator/generator_emit_routes.c:241-252 | the loop counts the opening braces |
| `RouteTable.BracesAreSlots` | src/generator/generator_emit_routes.c:241-252 | in a valid URL the opening braces are as many as the placeholders |
| `RouteTable.BestHasFewestSlots` | src/http/route.c:136-199 | in a table of valid URLs the match that wins by braces is the one with fewer placeholders than every other |
| `RouteTable.RouteFindExact` | src/http/route.c:136-199 | finds a route exactly when one match has fewer opening braces than every other, and returns that match's parameters |
| `RouteTable.ValidateRoutes` | src/generator/generator_validate.c:271-313 | accepts exactly the route sets without reserved paths and clashes |
| `RouteTable.ClashIs` | src/generator/generator_validate.c:271-313 | two routes clash exactly when they have one method, as many placeholders and a URL that matches both, unless a fixed segment too long for a parameter faces a placeholder |
| `RouteTable.Spelling` | src/generator/generator_validate.c:303-304 | the reserved paths, letter by letter |
| `RouteTable.EmitRouteTable` | src/generator/generator_emit_routes.c:379-423 | the order is a permutation by number of placeholders, stable for equal numbers |
| `RouteTable.EarlierIsBetter` | src/generator/generator_emit_routes.c:379-423 | of two routes of the table that match a request the earlier has fewer placeholders |
| `RouteTable.FirstMatchIsFound` | src/http/route.c:136-199 | for every accepted route set and every request the first match of the table has fewer placeholders than every other match, and is the one found: nothing is ambiguous |
| `RouteParams.ValidateRouteUrl` | src/generator/generator_route.c:477-517 | accepts exactly the valid URLs |
| `RouteParams.UrlPlaceholders` | src/generator/generator_route.c:271-297 | in a valid URL the texts between braces are the placeholders of its segments |
| `RouteParams.UrlParamSlot` | src/generator/generator_route.c:271-297 | the number of the placeholder of that name, or -1 exactly when there is none |
| `RouteParams.ParameterGetsItsSegment` | src/generator/generator_route.c:551-579 | each path parameter named x receives the URL segment that stands at {x} |
| `Arena.ChunkCap` | src/core/arena.c:133-147 | a new chunk holds the block and is at most twice as large, or the minimum |
| `Arena.SpaceBound` | src/core/arena.c:98-176 | the listed chunks take at most three times the space in use and 64 KiB |
| `Arena.Arena.Bounded` | src/core/arena.c:98-176 | in every state `used` is the sum of the chunks' uses, at most `max`, and the space bound holds |
| `Arena.Arena.Alloc` | src/core/arena.c:98-176 | a block is handed out exactly when its rounded size fits the limit and a chunk can be found; it is aligned, inside its chunk and disjoint from every live block |
| `Arena.Arena.Write` | src/core/arena.c:98-176 | writing into a live block keeps every invariant |
| `Arena.Arena.Reset` | src/core/arena.c:178-212 | every byte ever handed out from every listed chunk is zero, and the first small chunk is kept when there is no spare |
| `Arena.Arena.Free` | src/core/arena.c:214-225 | nothing is left |
| `ClientLimit.LimitCounts` | src/server/server.c:54-111 | a call changes the count of its own address only, by the connection granted or given back, never beyond the limit, and no slot with connections is taken over |
| `ClientLimit.LimitDecides` | src/server/server.c:54-111 | a connection is granted exactly below the limit to an address that has a slot or finds one, given back exactly for an address with a slot, and a request granted exactly when fewer than the limit were in this minute |
| `ClientLimit.RateHolds` | src/server/server.c:54-111 | in every run of calls of any addresses within the minute of a slot's window, the requests granted to its address stay within the limit |
| `ClientLimit.Clients.ClientLimit` | src/server/server.c:54-111 | the search for the slot or a free one and the update are the call LimitCounts is about |
| `ConnQueue.Ring.Push` | src/server/server.c:119-143 | appends to the first-in first-out queue, refused exactly when it holds 64 |
| `ConnQueue.Ring.Pop` | src/server/server.c:145-171 | takes the oldest |
| `ServerRuns.StepBalance` | src/server/server_worker.c:100-128 | a step neither loses a connection nor closes one twice |
| `ServerRuns.StepExact` | src/server/server_worker.c:373-403 | every step keeps the count of every address equal to its connections queued or held |
| `ServerRuns.StepOrdered` | src/server/server_worker.c:100-128 | connections leave the queue in the order in which they were accepted |
| `ServerRuns.EveryRun` | src/server/server_worker.c:373-403 | over every interleaving each accepted connection is open in exactly one place or closed exactly once, counts are exact and within the limit, and service is in order |
| `ServerRuns.AtTheEnd` | src/server/server_worker.c:202-260 | when the server is over every accepted connection has been closed exactly once and none is counted |
| `Nesting.ValidateNestingDepth` | src/generator/generator_validate.c:175-222 | accepts exactly the programs in which every nested type is declared and no chain of types, each nesting the first type of a name it uses, is longer than 8; computes the length of the longest chain from each type |
| `Nesting.TypeIndex` | src/generator/generator_validate.c:81-91 | the first type of that name, and -1 exactly when there is none |
| `Nesting.NoLongerPath` | src/generator/generator_validate.c:175-222 | no chain from a type is longer than its computed depth |
| `Nesting.PathThatLong` | src/generator/generator_validate.c:175-222 | one chain is that long |
| `Nesting.StuckPath` | src/generator/generator_validate.c:175-222 | types left without a depth start chains of every length |
| `Nesting.NoCycle` | src/generator/generator_validate.c:175-222 | a bound on chains excludes cycles |
| `Nesting.GuardsNeverFire` | src/runtime/runtime.c:383-388 | type descriptions of an accepted program never reach the depth guards of the writer and the reader |
| `ModelIncludes.ModelFileReady` | src/generator/generator_emit_main.c:265-307 | ready exactly when every file required is included |
| `ModelIncludes.EmitModelIncludes` | src/generator/generator_emit_main.c:309-347 | every model file once, after the files it requires; failure exactly when model files require each other in a circle or require a file without a model |
| `ModelIncludes.StuckIsHopeless` | src/generator/generator_emit_main.c:309-347 | a pass that gets stuck has found a circle or a missing model file |
| `ModelIncludes.CompleteIsNotHopeless` | src/generator/generator_emit_main.c:309-347 | a complete order leaves room for neither |
| `Chunked.RoundTrip` | src/runtime/fetch_reply.c:118-184 | up to 4095 chunks, 64 KiB in all, however sizes and extensions are written, decode to their content |
| `Chunked.DecodeSound` | src/runtime/fetch_reply.c:118-184 | whatever is decoded is the content of chunks that stand in the text |
| `Chunked.SizeBack` | src/runtime/fetch_reply.c:118-150 | the number a size line says is the number that was printed in hexadecimal |
| `Chunked.DecodeChunked` | src/runtime/fetch_reply.c:118-184 | decoding within one buffer gives the same reply and body as decoding beside it; the write index never passes the read index |
| `TransactionGuard.ParseState.GuardTransaction` | src/generator/generator_route.c:767-844 | counter and array refine a stack of open blocks: on every line the complaints are those of the stack on the line's tokens, which are said of its characters |
| `TransactionGuard.ParseState.OpenBlock` | src/generator/generator_route.c:815-830 | an opening brace pushes a block, transactional when armed |
| `TransactionGuard.ParseState.CloseBlock` | src/generator/generator_route.c:831-841 | a closing brace pops one |
| `TransactionGuard.DepthsIncrease` | src/generator/generator_route.c:815-841 | recorded depths are strictly increasing and at most the present depth |
| `TransactionGuard.ReturnReported` | src/generator/generator_route.c:809-812 | in any sequence of tokens a return is complained about, at its place, exactly when it stands inside a brace that $transaction opened and that is not closed before it |
| `TransactionGuard.OpenBracesAll` | src/generator/generator_route.c:815-841 | every brace that the counting of braces leaves open is on the stack |
| `TransactionGuard.StackIsBraces` | src/generator/generator_route.c:815-841 | the stack is the open braces in order, each with whether $transaction opened it |
| `TransactionGuard.GuardFile` | src/generator/generator_source.c:481-493 | over a whole file, line by line, the complaints are those of the stack on the tokens of all lines |
| `GuardTokens.ScanIsReading` | src/generator/generator_route.c:773-843 | the scan finds exactly the braces and the longest words that stand outside literals, in order |
| `GuardTokens.OneReading` | src/generator/generator_route.c:773-843 | and a line has only one such sequence |
| `GuardText.LineComplaints` | src/generator/generator_route.c:767-844 | said of characters alone: each line is complained about once for every return outside literals that stands behind an opening brace not closed since, which $transaction opened, until more than 16 such blocks are open |
| `TransactionGuard.Spelling` | src/generator/generator_route.c:805-809 | the two words, letter by letter |
| `GuardTokens.SourceCharacters` | src/generator/generator_route.c:791-831 | quotation marks, word characters and braces, by character |
| `Bytes.Characters` | src/generator/generator_route.c:797-801 | letters, digits and the low line, by character |
| `TransactionGuard.WithinLimit` | src/generator/generator_route.c:818-829 | the limit of 16 is complained about exactly when it is exceeded, and makes no difference until then |

## Left out

- Sockets, poll, timeouts, signals, TLS and DNS: a receive is a choice of how many bytes arrive.
- SQLite itself, SQL text, schema inspection and the authorizer; the progress handler is one way in which a statement fails.
- Doubles: fields of kind FIELD_DOUBLE, their printing with %.17g and reading with strtod are not modelled.
- Validation rules of fields ($min, $max, $size, $email): a field's rules are any condition on its value.
- The texts of error messages and the list of field errors; a refused body is only refused.
- The code paths for paginated and listed rows, static files, templates, configuration, CORS and bearer tokens.
- C source and OpenAPI text emission: only the order of routes and of included files is modelled.
- Big-endian machines and other data models than LP64: integers in memory are little-endian, int is 4 and long and pointers 8 bytes.
- ARENA_ALIGN is taken as 16, the size of long double on the usual 64-bit targets; chunk canaries and the choice between malloc and mmap are not modelled, and the linked list of chunks is a sequence, newest first.
- Json token arrays, header arrays and the list of migrations are sequences bounded by the source's limits; strings being decoded, struct memory, the sink, the ring, the client table, the depth and included arrays and the chunked buffer are arrays updated in place.
- A failing clock in client_limit: the clock is read before the call and always succeeds.
- Jumps and cleanup attributes as language mechanisms: a throw is a flow value that skips what follows it.
- ServerRuns: the lock of the queue is taken and released within one step, except during shutdown, where it is held from the first drained connection to the last.
- Migrations.ApplyMigrations: the number of records is not cut to 32 bits, and whether a script can lose its transaction is a property of the engine parameter.
- Migrations.AllRecorded: assumes scripts that leave the table of records alone; the converse holds for each migration (OwnRecordOnly) but not for a whole run, where a later script may undo what an earlier one did.
- Transactions.Session.DbExecute: a call that db_execute refuses for its arguments alone, before it takes the lock, changes nothing and is not modelled.
- GuardText.LineComplaints: when more than 16 transactional blocks are open is said of tokens only (`TransactionGuard.WithinLimit`).
- StructRoundTrip.PrintThenRead: the reader gets the printed bytes as a buffer of exactly their length.
- StructPatch.ReadThenPatch: target and changes are separate objects of exactly the type's size.

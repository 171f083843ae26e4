# Verified models of the cloud-print client

This project models, in Dafny 4.11, the parts of the client whose behaviour is hardest to see from
any single function, and proves properties that hold for every input, every run and every
interleaving. `dafny verify dfyconfig.toml` checks all of it.

**JSON text and trees.** `JsonScan` says what the permissive jsonxx parser reads from a text at a
position: put-back matching, `//` comments, both quote characters, trailing commas, a missing value
before a comma as null, the last of equal keys. `JsonParser` holds the parser as it runs, an input
stream advanced step by step, and proves each method against that reading. `JsonText` is the printer,
which ends every child with a comma and then blanks the last one out of the finished text, next to a
plain comma-joined printer that it is proved equal to at every level; `JsonPrinter` has its loops.
`Decimals` prints any number with sixteen significant digits, and `JsonNumbers` reads it back.
`JsonRoundTrip` proves that printing and then parsing gives the tree back. `JsonEmptyKeys` proves that
this fails for every tree with an empty key, however deep: all the parser can do with a printed text,
including where it loses its way, is followed through, and no empty key can come out. `JsonGrammar` is
an independent account of what the parser accepts: a grammar that contains RFC 8259 and the liberties
of jsonxx, with the value of every text, and the proof that the parser reads that value.
`JsonPermissive` says more about these liberties. `JsonHeap` holds Value, Array and Object as owned
objects changed in place, with deep copies.

**Configuration.** `Config` is the store of scalar values under `/`-separated paths, with the path
laws, the pending key of `operator<<`, and persistence over any sequence of changes.

**Print jobs.** `JobProtocol` is the job processor as a state machine. Every callback is one step;
any number of jobs, server answers and cancels interleave; a returned request id is stored by a later
step, so the stored id may be stale, and the answer may come first, as it does when nobody is logged
in. The actions of a job are proved to be, at every moment of every run, one prescribed history.
`JobOutcomes` keeps a log of the bare events, without the protocol, and proves from it how every job
ends and every action it takes. `JobProcessor` is the class whose methods take these steps.

**HTTP.** `SessionProtocol` and `HttpClientMT` do the same for the session engine with its retry,
its cancel and its pool of sockets; `SessionReplies` proves from the events of a run what each callback
is given. `HttpMessage` and `ResponseReader` model the printer of responses and the incremental reader,
for any bytes and any split of them into reads. `HttpContent` models multipart and other bodies, the
output stream they are written to, and requests with their declared length; `RequestReader` is a
server's side of that, which recovers method, parameters and parts from the printed text. `HttpClient`
is the older client with one request in flight.

**Job list.** `JobsList` is the reconciliation of the list on the page with the list from the server.

Where the source promises more than the code keeps, the code is modelled as it is and the exact
condition is proved:

- A tree comes back from its text, its numbers as printed, exactly when no key in it is empty
  (`JsonEmptyKeys`). The numbers are printed unchanged exactly when they have at most sixteen
  significant digits (`Decimals`).
- A header value comes back exactly when it is empty or has at least two characters and no leading
  blank, so a printed Content-Length is read exactly when it has two digits and is not the largest
  number (`HttpMessage`).
- A response comes back exactly when all its header values do and its length, as then read, is absent
  or right, or when it has no headers and its body supplies a blank line. Bytes after a body of known
  length break it exactly when the read that completes the header block brings more than the whole
  body (`ResponseReader`).
- Content-Length is the number of bytes written exactly when no part is empty; an empty part fails
  the stream and cuts the body there. A server finds the parts exactly when, in addition, none of them
  holds the boundary, which is fixed, and finds the parameters of a request exactly when they hold no
  delimiter, since nothing is escaped (`RequestReader`). The log, the connection and the retry get the same text exactly
  when the content is not an unread stream: that goes to the first log only (`HttpContent`).
- A cancel reaches something exactly while the request is active, and ends it as cancelled exactly
  when its body is not being read (`SessionProtocol`). A cancel of the older client stops all further
  attempts exactly of the requests that are not in flight with a retry left (`HttpClient`). A cancel of
  a print job can end its call exactly when the id stored for the job is that of the call
  (`JobProtocol`).
- The page shows no job twice exactly when the server's list names none twice (`JobsList`).
- A document without pages is reported as canceled though nobody cancelled it (`JobProtocol`).

Common conventions: a byte string is a Dafny `string` (all proofs hold for every character code, so
in particular for the 256 byte values); a table visited in hash order takes that order as a
parameter; the file, the server, the clock and the network are parameters or events.

## Model

| member | source | states |
|---|---|---|
| JsonParser.InputStream.SkipSpace | src/Core/jsonxx.cc:60 | the stream ends at the first character that is not white space |
| JsonParser.InputStream.ParseComment | src/Core/jsonxx.cc:230-263 | a comment is consumed to the end of its line and the white space after it; anything else leaves the stream where it was |
| JsonParser.InputStream.Match | src/Core/jsonxx.cc:59-79 | the loop of get, put-back and comment skipping, with its stale character at the end of the text, accepts, stops and puts back as the recursive reading of the pattern says |
| JsonParser.InputStream.GetUnicodeDigits | src/Core/jsonxx.cc:119-125 | exactly four characters are taken after `\u`, or the stream ends |
| JsonParser.InputStream.ParseStringBody | src/Core/jsonxx.cc:92-146 | the escape loop gathers the string that the reading of the text prescribes, up to the delimiter |
| JsonParser.InputStream.ParseString | src/Core/jsonxx.cc:81-147 | either quote opens a string; result and stream position are as read |
| JsonParser.InputStream.ParseNumber | src/Core/jsonxx.cc:188-198 | a token that is no number puts the stream back after the white space |
| JsonParser.InputStream.ParseBool | src/Core/jsonxx.cc:200-210 | `true`, then `false` from where the first match left the stream |
| JsonParser.InputStream.ParseNull | src/Core/jsonxx.cc:212-220 | the word null, or a missing value in front of a comma |
| JsonParser.InputStream.ParseValue | src/Core/jsonxx.cc:353-393 | the alternatives in order, each from where the last one left the stream; it terminates on every text |
| JsonParser.InputStream.ParseArray | src/Core/jsonxx.cc:401-424 | the element loop terminates on every text, since every turn consumes input, and reads what the recursive reading says |
| JsonParser.InputStream.ParseObject | src/Core/jsonxx.cc:276-334 | the member loop terminates on every text and keeps the last of equal keys; a failed parse leaves the pairs read so far |
| JsonScan.MatchFrom | src/Core/jsonxx.cc:64-78 | a successful match has consumed the rest of the pattern, but for a last character that the end of the text can stand for |
| JsonScan.Match | src/Core/jsonxx.cc:59-79 | a match, failed or not, never ends before its start, and a successful one consumes input: the measure of every parser loop |
| JsonScan.ParseValue | src/Core/jsonxx.cc:353-393 | for every text and every position the parse ends inside the text, at or after its start |
| JsonScan.NestedParseAndNextTurnStartLater | src/Core/jsonxx.cc:276-424 | every nested parse and every further loop turn starts strictly later in the text, so both parsers stop on every text |
| JsonPrinter.EscapeString | src/Core/jsonxx.cc:566-572 | the table loop gives the escape of every character, in order |
| JsonPrinter.RemoveLastComma | src/Core/jsonxx.cc:578-585 | the length stays, and the only character that can change is the last but one, from a comma to a blank |
| JsonPrinter.Tag | src/Core/jsonxx.cc:587-631 | the recursive printer with its child loops and patches gives the specified text |
| JsonPrinter.TagElements | src/Core/jsonxx.cc:609-611 | the element loop prints the elements in order |
| JsonPrinter.TagMembers | src/Core/jsonxx.cc:620-622 | the member loop prints the members in key order |
| JsonPrinter.Json | src/Core/jsonxx.cc:859-870 | the finished text of an object or array |
| KeyOrder.Sorted | src/Core/jsonxx.cc:620-622 | a map is visited in strictly ascending key order, every key once |
| KeyOrder.LeqExactly | src/Core/jsonxx.cc:620-622 | the order is by the smaller character code at the first difference, a prefix first |
| JsonText.PatchLast | src/Core/jsonxx.cc:612 | in a container with children the patch changes exactly the separator after the last child |
| JsonText.PatchNone | src/Core/jsonxx.cc:623 | the patch leaves the text of an empty container alone |
| JsonText.TagIsPlain | src/Core/jsonxx.cc:587-631 | the patching printer equals the comma-joined printer at every depth, whatever keys and strings contain |
| JsonText.JsonIsPlain | src/Core/jsonxx.cc:866-869 | so does the finished text, with its last separator blanked |
| JsonRoundTrip.EscapeCharReads | src/Core/jsonxx.cc:543-560 | every character's escape reads back as that character |
| JsonRoundTrip.StringBodyRead | src/Core/jsonxx.cc:92-146 | the parser's escape loop undoes the printer's escaping of every string |
| Decimals.NearestIsNear | src/Core/jsonxx.cc:625-629 | rounding never moves a number by more than half a unit of its last digit, and at exactly half goes to the even digit |
| Decimals.NoneIsNearer | src/Core/jsonxx.cc:625-629 | no number of at most sixteen significant digits is nearer to a number than the one printed for it |
| Decimals.FormExactly | src/Core/jsonxx.cc:625-629 | which texts are in scientific form, with how many digits and which sign, and that none has superfluous zeros |
| Decimals.RoundedExactly | src/Core/jsonxx.cc:625-629 | a number is printed with at most sixteen significant digits, and the numbers that have no more are exactly those printed unchanged |
| JsonNumbers.NumberRead | src/Core/jsonxx.cc:188-198 | every printed number, in fixed or scientific notation, reads back as the number that was printed |
| JsonRoundTrip.NumberValueRead | src/Core/jsonxx.cc:353-367 | a printed number is the value that the order of alternatives finds |
| JsonRoundTrip.ScalarRead | src/Core/jsonxx.cc:353-376 | printed numbers, strings, booleans and nulls read back through the parser's order of alternatives |
| JsonRoundTrip.BodyRead | src/Core/jsonxx.cc:353-393 | any printed value reads back at any depth, a number as printed and an unassigned value as null |
| JsonRoundTrip.ElementsRead | src/Core/jsonxx.cc:411-423 | the element loop collects exactly the printed elements |
| JsonRoundTrip.MembersRead | src/Core/jsonxx.cc:286-333 | the member loop collects exactly the printed members |
| JsonRoundTrip.ObjectRoundTrip | src/Core/jsonxx.cc:859-870 | parsing the text of any object without empty keys succeeds and gives the object back, its numbers as printed |
| JsonRoundTrip.ArrayRoundTrip | src/Core/jsonxx.cc:886-897 | the same for arrays |
| JsonEmptyKeys.MatchFromLexed | src/Core/jsonxx.cc:64-78 | on a printed text a failing match puts back everything, so the parser never stops inside a string |
| JsonEmptyKeys.ParseStringLexed | src/Core/jsonxx.cc:81-147 | an empty string is read only where no colon follows |
| JsonEmptyKeys.ParseMembersClean | src/Core/jsonxx.cc:286-333 | the member loop finds no empty key, also after it has lost its way |
| JsonEmptyKeys.HeadLexed | src/Core/jsonxx.cc:591-594 | an empty name is printed as no name at all |
| JsonEmptyKeys.JsonLexed | src/Core/jsonxx.cc:587-631 | in no printed text does a colon follow an empty string |
| JsonEmptyKeys.ParsedTextHasNoEmptyKey | src/Core/jsonxx.cc:276-334 | whatever parsing a printed text yields, it has no empty key |
| JsonEmptyKeys.ObjectRoundTripExactly | src/Core/jsonxx.cc:859-870 | an object comes back from its text if and only if no key in it, at any depth, is empty |
| JsonEmptyKeys.ArrayRoundTripExactly | src/Core/jsonxx.cc:886-897 | the same for arrays |
| JsonGrammar.EscapeForm | src/Core/jsonxx.cc:543-560 | the printer escapes eight characters with two characters and the other control characters with six; all others stand for themselves |
| JsonGrammar.GapMatch | src/Core/jsonxx.cc:66-70 | any white space and comments in front of a token are skipped; a comment ends at its first carriage return or line feed |
| JsonGrammar.QuotedRead | src/Core/jsonxx.cc:81-147 | between either quotes, plain characters, every escape, the escaped quote, four hexadecimal digits of either case and unknown escapes read as what they stand for |
| JsonGrammar.OddUnicodeEscape | src/Core/jsonxx.cc:119-125 | what is read when the four characters are not four digits |
| JsonGrammar.UnclosedString | src/Core/jsonxx.cc:92-146 | a string that is not closed, or is cut off inside an escape, is refused |
| JsonNumbers.LooseTokenRead | src/Core/jsonxx.cc:188-198 | a token with either sign or none, digits on at least one side of its point and an exponent in either case reads as the number it denotes |
| JsonNumbers.BadExponent | src/Core/jsonxx.cc:188-198 | a token whose exponent has no digits is no number |
| JsonGrammar.ValueRead | src/Core/jsonxx.cc:353-393 | at any text of the grammar the parser reads the value that the grammar gives it, and stops right after it |
| JsonGrammar.DocumentIsRead | src/Core/jsonxx.cc:276-334 | every object text of the grammar, all standard JSON among them, parses to its value, whatever follows |
| JsonGrammar.ArrayIsRead | src/Core/jsonxx.cc:401-424 | the same for arrays |
| JsonPermissive.CommentIsSpace | src/Core/jsonxx.cc:66-70 | a comment in front of any token is read as white space |
| JsonPermissive.MissingValueIsNull | src/Core/jsonxx.cc:212-220 | where a comma stands in place of a value the value is null, and the comma is left to be read |
| JsonPermissive.TrailingCommaInArray | src/Core/jsonxx.cc:411-423 | a comma before the closing bracket adds no element |
| JsonPermissive.TrailingCommaInObject | src/Core/jsonxx.cc:299-304 | a comma before the closing brace adds no member |
| JsonPermissive.EitherQuote | src/Core/jsonxx.cc:82-91 | a string without quotes and backslashes reads the same between either kind of quotes |
| JsonPermissive.LaterMembersWin | src/Core/jsonxx.cc:286-333 | what is read from any point on overrides what was read before and depends on nothing else of it |
| JsonPermissive.LastOfEqualKeysWins | src/Core/jsonxx.cc:315-326 | a member takes the place of an earlier one with its key, and any later ones take its place |
| JsonPermissive.CutOffToken | src/Core/jsonxx.cc:64-78 | a token cut off by the end of the text is accepted exactly when only its last character is missing and repeats the one before |
| JsonPermissive.CutOffWord | src/Core/jsonxx.cc:200-220 | of the words only null can lose its last character |
| JsonPermissive.PutBackExactly | src/Core/jsonxx.cc:71-75 | what a failed match has read goes back when it stands in the text as matched; behind a comment in the middle the stream fails |
| JsonTree.NormalKeepsExactly | src/Core/jsonxx.cc:598-629 | the printer changes a tree exactly when it holds an unassigned value or a number of more than sixteen significant digits |
| JsonHeap.ValueNode.Copy | src/Core/jsonxx.cc:1169-1171 | the copy is an equal tree of new nodes only |
| JsonHeap.ValueNode.Reset | src/Core/jsonxx.cc:338-351 | what the tag owns is given up; the tag stays |
| JsonHeap.ValueNode.Import | src/Core/jsonxx.h:283-310 | the value becomes an equal tree of new nodes; importing itself changes nothing |
| JsonHeap.ValueNode.ImportArray | src/Core/jsonxx.h:273-277 | the value becomes a deep copy of the array |
| JsonHeap.ValueNode.ImportObject | src/Core/jsonxx.h:278-282 | the value becomes a deep copy of the object |
| JsonHeap.ArrayNode.Copy | src/Core/jsonxx.cc:1099-1101 | the copy is equal and shares no node |
| JsonHeap.ArrayNode.Import | src/Core/jsonxx.cc:1112-1125 | copies of the other's elements are appended, for the array itself too |
| JsonHeap.ArrayNode.Assign | src/Core/jsonxx.cc:1156-1162 | the array becomes a deep copy; assigning itself changes nothing |
| JsonHeap.ObjectNode.Copy | src/Core/jsonxx.cc:1006-1008 | the copy is equal and shares no node |
| JsonHeap.ObjectNode.Import | src/Core/jsonxx.cc:1012-1030 | the other's pairs win, as copies; importing itself changes nothing |
| JsonHeap.ObjectNode.ImportPair | src/Core/jsonxx.cc:1031-1038 | exactly one key changes, to a copy of the value |
| JsonHeap.ObjectNode.Assign | src/Core/jsonxx.cc:1039-1046 | the object becomes a deep copy; assigning itself changes nothing |
| JsonHeap.ChildrenAreDisjoint | src/Core/jsonxx.cc:1012-1030 | two children of one node share no node |
| JsonHeap.OneOwner | src/Core/jsonxx.cc:1012-1030 | no node of a tree is reached along two paths: every Value has one owner |
| JsonHeap.CopyThenChange | src/Core/jsonxx.cc:1006-1038 | a pair imported into a copy never shows in the object it was copied from |
| JsonHeap.ChangeCopy | src/Core/jsonxx.h:283-310 | a change at any path of a copy, to any value, never shows in the source |
| JsonHeap.ChangeSource | src/Core/jsonxx.h:283-310 | a change at any node of the source, to any value, never shows in the copy |
| JsonHeap.OtherTreeIsUnchanged | src/Core/jsonxx.cc:1006-1038 | whatever is done to the nodes of one tree, another that shares none of them stays the same |
| Config.SplitExactly | src/Core/Config.cpp:22-59 | the sections of a name are the texts without a slash that, joined by slashes, are the name |
| Config.NamesAreNested | src/Core/Config.cpp:46-59 | a name with a slash is a name within the section in front of its first slash, for reads, writes and nulls; a null for a section takes all its values away |
| Config.ReadsAreTyped | src/Core/Config.cpp:22-43 | a read finds a value of the type it asks for or nothing |
| Config.LookupAfterPut | src/Core/Config.cpp:46-59 | after a write: the value at the path, objects above it, nothing below it, everything else unchanged |
| Config.GetAfterSet | src/Core/Config.cpp:22-59 | every typed read after a set, for every pair of paths |
| Config.GetAfterSetNull | src/Core/Config.cpp:107-123 | every typed read after SetNull, for every pair of paths: nothing at or below the path, unchanged everywhere else |
| Config.UnreachableHasNothing | src/Core/Config.cpp:113-119 | where SetNull gives up on the way there was nothing to erase |
| Config.PutPut | src/Core/Config.cpp:46-59 | the second of two writes to one path is the one that counts |
| Config.PutSame | src/Core/Config.cpp:46-59 | writing back what is there changes nothing |
| Config.PairIsStored | src/Core/jsonxx.cc:1047-1055 | a streamed pair is stored and no key stays pending exactly when the key is not empty |
| Config.SectionIsStored | src/Core/jsonxx.cc:1056-1060 | a streamed object is stored under any key, and no key stays pending |
| Config.MakeSection | src/Core/Config.cpp:51-54 | a section created on the way down does not change what the write ends up with |
| Config.PutThrough | src/Core/Config.cpp:49-56 | writing, or making sections, through the pointer to a nested object is doing so at the longer path |
| Config.Store.GetValue | src/Core/Config.cpp:23-43 | the index-scanning loop agrees with recursive descent over the split path |
| Config.Store.StreamPair | src/Core/Config.cpp:58 | one pair of the pointed-to object changes and no key is pending; after an empty key nothing changes and the text is pending |
| Config.Store.EnterSection | src/Core/Config.cpp:50-55 | one turn of the scan leaves the outcome of the write unchanged |
| Config.Store.SetValue | src/Core/Config.cpp:46-59 | the scanning loop with its pointer writes what recursive descent writes; with an empty last section it makes the sections only and leaves the text as the pending key of the innermost |
| Config.Store.SetNull | src/Core/Config.cpp:107-123 | a null at the path, or no change where a section is missing |
| Config.Store.Save | src/Core/Config.cpp:78-81 | the file holds the printed object |
| Config.Store.Load | src/Core/Config.cpp:70-76 | a missing file is no error and changes nothing; otherwise what the parser reads |
| Config.SaveThenLoad | src/Core/Config.cpp:70-81 | a storable configuration survives saving and loading, its numbers as printed |
| Config.SaveThenLoadExactly | src/Core/Config.cpp:70-81 | any configuration at all survives, its numbers as printed, if and only if it has no empty key |
| Config.RunKeepsStorable | src/Core/Config.cpp:46-59 | every sequence of changes keeps a configuration storable |
| Config.LookupNormal | src/Core/Config.cpp:22-43 | reading a path of the saved tree gives what was saved of the value there |
| Config.Persistence | src/Core/Config.cpp:70-123 | after any sequence of changes, with any numbers, Save and Load into a fresh store leave every read unchanged but for digits beyond the sixteenth |
| Config.SavedExactly | src/Core/Config.cpp:78-81 | a read is unchanged exactly when it is no number of more than sixteen significant digits |
| JobProtocol.RenderTurnKeeps | src/CustomerPrintClientCore/JobProcessor.cpp:203-217 | every turn of the render task keeps a job's actions the prescribed history |
| JobProtocol.AnsweredKeeps | src/CustomerPrintClientCore/JobProcessor.cpp:263-383 | so does every callback, for every outcome and every moment of a cancel |
| JobProtocol.SettledOnce | src/CustomerPrintClientCore/JobProcessor.cpp:263-335 | the promise is set once and one of Complete, Canceled, Error is reported once, as the last two actions |
| JobProtocol.UploadsInOrder | src/CustomerPrintClientCore/JobProcessor.cpp:353-383 | pages go out as 1, 2, ... in render order, completion is asked for only after all of them, and the fetch only after completion |
| JobProtocol.PagesReported | src/CustomerPrintClientCore/JobProcessor.cpp:424-437 | pages are reported rendered as 1, 2, ... and then uploaded as 1, 2, ...; the server is told their number |
| JobProtocol.CallsAreBounded | src/CustomerPrintClientCore/JobProcessor.cpp:307-413 | a job with n pages makes at most n + 4 server calls |
| JobProtocol.DeletedOnce | src/CustomerPrintClientCore/JobProcessor.cpp:269-320 | Canceled after creation follows exactly one deletion; every other end asks for none |
| JobProtocol.CompleteBeforeCancel | src/CustomerPrintClientCore/JobProcessor.cpp:337-351 | a complete job was fetched before any cancel was recorded |
| JobProtocol.PagesAreConserved | src/CustomerPrintClientCore/JobProcessor.cpp:353-383 | results, the page in flight and pages still queued add up to the pages rendered |
| JobProtocol.NoPagesIsCanceled | src/CustomerPrintClientCore/JobProcessor.cpp:212-215 | a document without pages makes no call and ends as canceled |
| JobProtocol.CallbacksMakeProgress | src/CustomerPrintClientCore/JobProcessor.cpp:307-413 | a measure falls at every turn and every callback |
| JobProtocol.CancelOneMore | src/CustomerPrintClientCore/JobProcessor.cpp:237-244 | the cancel-all loop can visit the jobs in any order |
| JobProtocol.AdvanceKeepsRequests | src/CustomerPrintClientCore/JobProcessor.cpp:381-382 | a stored or returned id, stale or not, belongs to the job it is kept for |
| JobProtocol.AdvanceKeepsQueue | src/CustomerPrintClientCore/JobProcessor.cpp:449-479 | every waiting job stands exactly once in the queue or the batch |
| JobProtocol.StepKeeps | src/CustomerPrintClientCore/JobProcessor.cpp:190-413 | every event keeps the invariant over all jobs, ids and queues |
| JobProtocol.FrontAlwaysExists | src/CustomerPrintClientCore/JobProcessor.cpp:376-377 | front() is never taken of an empty list |
| JobProtocol.Run | src/CustomerPrintClientCore/JobProcessor.cpp:190-413 | every reachable state satisfies the invariant |
| JobProtocol.EveryRunIsSafe | src/CustomerPrintClientCore/JobProcessor.cpp:190-413 | over every interleaving: one settlement, one final status last, bounded calls, uploads in order, nothing but a deletion asked for after a cancel, deletion exactly for created and canceled jobs |
| JobProtocol.CancelReachesStored | src/CustomerPrintClientCore/JobProcessor.cpp:224-245 | a cancel of a job, or of all, lets the call under way end as cancelled if and only if the stored id is that of the call |
| JobProtocol.NewCallIsWritten | src/CustomerPrintClientCore/JobProcessor.cpp:381-382 | the id of every new call but the deletion is on its way to be stored; the deletion clears what is stored |
| JobProtocol.WhatIsStored | src/CustomerPrintClientCore/JobProcessor.cpp:490-498 | the stored id is the one written last; a refused call, the deletion and a cancel of all jobs clear it |
| JobProtocol.ReleasedForGood | src/CustomerPrintClientCore/JobProcessor.cpp:485-488 | once released, a job is never pending again, and no cancel changes it |
| JobOutcomes.EveryEnd | src/CustomerPrintClientCore/JobProcessor.cpp:190-413 | from the events of a run alone, if and only if for each final status: complete when creation, all uploads, completion and fetch were answered; an error when a page failed or a call other than the deletion did; canceled when it was given up |
| JobOutcomes.EveryAction | src/CustomerPrintClientCore/JobProcessor.cpp:190-413 | from the events of a run alone, all actions of every job in their order |
| JobOutcomes.SmoothIsComplete | src/CustomerPrintClientCore/JobProcessor.cpp:321-351 | a document with pages that nobody cancels, with every page and call successful, settles as complete with a value, as soon as its n + 3 calls are answered |
| JobOutcomes.ResultsInOrder | src/CustomerPrintClientCore/JobProcessor.cpp:353-383 | the results kept are those of the uploads, in page order, and all of them when completion is asked for |
| JobProtocol.StepsMeasured | src/CustomerPrintClientCore/JobProcessor.cpp:307-479 | every turn, answer and batch leaves less to do on all jobs together, and nothing but a new job adds work |
| JobProtocol.RunsEnd | src/CustomerPrintClientCore/JobProcessor.cpp:307-479 | however a run goes on without new jobs, it has no more turns, answers and batches than there was work left |
| JobProtocol.NoJobIsStuck | src/CustomerPrintClientCore/JobProcessor.cpp:449-479 | while a job is not settled, a step is possible that leaves less to do |
| JobProcessor.Processor.RenderAndUpload | src/CustomerPrintClientCore/JobProcessor.cpp:190-222 | the job is added to the pending list and its task to the end of the queue |
| JobProcessor.Processor.CancelPendingJob | src/CustomerPrintClientCore/JobProcessor.cpp:224-233 | a pending job is marked for good and only the request stored for it is aborted; a released job is left alone |
| JobProcessor.Processor.CancelAllPendingJobs | src/CustomerPrintClientCore/JobProcessor.cpp:235-245 | the loop takes the one step that cancels all |
| JobProcessor.Processor.SwapQueue | src/CustomerPrintClientCore/JobProcessor.cpp:453-462 | the batch becomes the whole queue |
| JobProcessor.PendingJob.SetPromise | src/CustomerPrintClientCore/JobProcessor.cpp:263-267 | the promise is set once and the job has its final status |
| JobProcessor.Processor.RenderPage | src/CustomerPrintClientCore/JobProcessor.cpp:424-437 | one page is reported and kept, or the job settles: cancelled without another page, or with an error |
| JobProcessor.Processor.RenderCallback | src/CustomerPrintClientCore/JobProcessor.cpp:203-217 | no streams means canceled; else the job is created unless it is cancelled |
| JobProcessor.Processor.RenderNext | src/CustomerPrintClientCore/JobProcessor.cpp:449-473 | the job in front advances and leaves the batch when it waits no more; the invariant of all jobs is kept |
| JobProcessor.Processor.CreateJobAndUploadPages | src/CustomerPrintClientCore/JobProcessor.cpp:385-413 | a cancelled job settles without a call, any other is created |
| JobProcessor.Processor.ProcessServerException | src/CustomerPrintClientCore/JobProcessor.cpp:269-291 | a cancel deletes or settles, any other failure is an error |
| JobProcessor.Processor.CancelServerJob | src/CustomerPrintClientCore/JobProcessor.cpp:307-320 | the stored id is cleared before the deletion is sent |
| JobProcessor.Processor.CreateJobCallback | src/CustomerPrintClientCore/JobProcessor.cpp:399-408 | a refused creation settles the job; a created job uploads its first page, or is deleted when it was cancelled meanwhile |
| JobProcessor.Processor.UploadNextPage | src/CustomerPrintClientCore/JobProcessor.cpp:353-383 | the result is kept and the next page, the completion or the deletion follows |
| JobProcessor.Processor.UploadPageCallback | src/CustomerPrintClientCore/JobProcessor.cpp:353-383 | an upload ends in the next call, in the deletion or in an error, and the invariant of all jobs is kept |
| JobProcessor.Processor.CompleteJobCallback | src/CustomerPrintClientCore/JobProcessor.cpp:338-347 | the fetch follows only when no cancel is recorded |
| JobProcessor.Processor.GetJobCallback | src/CustomerPrintClientCore/JobProcessor.cpp:323-331 | a fetched job is complete even when a cancel came after the fetch was sent |
| JobProcessor.Processor.CancelJobCallback | src/CustomerPrintClientCore/JobProcessor.cpp:308-316 | the job is canceled whether or not the deletion succeeded |
| JobProcessor.Processor.StoreReturnedId | src/CustomerPrintClientCore/JobProcessor.cpp:490-496 | a returned id is stored only while the job is pending |
| SessionProtocol.ReturnKeepsPool | src/Networking/Http/HttpClientMT.cpp:268-277 | after a socket is returned the pool lists each pooled socket once, at most threadCount of them, and no held socket was closed |
| SessionProtocol.StepKeeps | src/Networking/Http/HttpClientMT.cpp:237-487 | every event keeps requests, attempts and sockets in order |
| SessionProtocol.RunKeeps | src/Networking/Http/HttpClientMT.cpp:237-487 | every reachable state satisfies the invariant |
| SessionProtocol.EveryRunIsSafe | src/Networking/Http/HttpClientMT.cpp:237-487 | each posted request is queued, active or answered, exactly once, with at most two attempts; each socket is pooled, held by one session or closed |
| SessionProtocol.SocketIsOnce | src/Networking/Http/HttpClientMT.cpp:258-277 | a socket is in the pool once or with exactly one session |
| SessionProtocol.PoolKeepsNewest | src/Networking/Http/HttpClientMT.cpp:268-277 | the pool keeps the most recently returned sockets |
| SessionProtocol.CancelReachesOwnSocket | src/Networking/Http/HttpClientMT.cpp:237-246 | a cancel reaches its own session's socket or nothing, never one that has been given back |
| SessionProtocol.AnsweredIsFinal | src/Networking/Http/HttpClientMT.cpp:279-316 | an answered request is never answered or started again |
| SessionProtocol.RetriedOnce | src/Networking/Http/HttpClientMT.cpp:296-306 | a failure raised as cancelled is never retried, any other exactly once |
| SessionProtocol.CancelReachesExactlyActive | src/Networking/Http/HttpClientMT.cpp:237-246 | in every reachable state a cancel reaches something if and only if the request is active; before, between and after attempts it is lost |
| SessionProtocol.AbortIsCancelExactlyBeforeBody | src/Networking/Http/HttpClientMT.cpp:454-459 | an aborted operation is answered as cancelled if and only if the body is not being read; else it counts as a failure |
| SessionProtocol.CancelEndsRequestExactly | src/Networking/Http/HttpClientMT.cpp:237-316 | a cancel and the abort it causes end a request as cancelled if and only if it is active and not reading the body |
| SessionReplies.StagesInOrder | src/Networking/Http/HttpClientMT.cpp:318-474 | in every run an attempt goes through its stages in order, from the lookup or, with a pooled socket, from sending; the handshake belongs to them exactly under https |
| SessionReplies.EveryReply | src/Networking/Http/HttpClientMT.cpp:279-316 | in every run the callback is given the response exactly when it was finished, a cancel exactly when an operation was aborted outside the body, and another failure exactly when two attempts failed |
| SessionReplies.PoolIsLatest | src/Networking/Http/HttpClientMT.cpp:258-277 | in every run the pool holds the sockets given back last, in that order |
| SessionReplies.PoolStep | src/Networking/Http/HttpClientMT.cpp:258-277 | a new attempt takes, of the pooled sockets, the one given back first |
| HttpClientMT.Client.PostRequest | src/Networking/Http/HttpClientMT.cpp:248-251 | the request waits to be started, with one retry |
| HttpClientMT.Client.CancelRequest | src/Networking/Http/HttpClientMT.cpp:237-246 | only an active session has something to cancel |
| HttpClientMT.Client.GetCachedSocket | src/Networking/Http/HttpClientMT.cpp:258-266 | the oldest pooled socket, if there is one |
| HttpClientMT.Client.CacheSocket | src/Networking/Http/HttpClientMT.cpp:268-277 | the eviction loop closes exactly the oldest sockets that no longer fit |
| HttpClientMT.Client.StartSession | src/Networking/Http/HttpClientMT.cpp:318-331 | the request becomes active with the oldest pooled socket, if any, and its cancel bound to exactly that |
| HttpClientMT.Client.HandleException | src/Networking/Http/HttpClientMT.cpp:285-310 | the session ends; the request is retried or answered |
| HttpClientMT.Client.HandleResolve | src/Networking/Http/HttpClientMT.cpp:353-359 | a failed lookup ends the attempt; a found address gets a new socket that this session alone holds |
| HttpClientMT.Client.HandleConnect | src/Networking/Http/HttpClientMT.cpp:361-365 | a failed connect ends the attempt and closes the socket; otherwise the handshake or the request follows |
| HttpClientMT.Client.HandleReadHeaders | src/Networking/Http/HttpClientMT.cpp:418-452 | a response that is complete with its headers is finished at once |
| HttpClientMT.Client.HandleReadContent | src/Networking/Http/HttpClientMT.cpp:454-474 | an aborted body read is not raised as a cancel |
| HttpClientMT.Client.FinishReadContent | src/Networking/Http/HttpClientMT.cpp:476-487 | the socket is the newest in the pool and the request is answered once |
| HttpMessage.ReadUnsigned | src/Networking/Http/HttpResponse.cpp:30-34 | a number that is read consumes input and fits its type |
| HttpMessage.ReadBackExactly | src/Networking/Http/HttpClientMT.cpp:428-439 | a header value survives if and only if it is empty, or has two characters and no leading blank |
| HttpMessage.ReadBackAllExactly | src/Networking/Http/HttpClientMT.cpp:424-441 | all headers survive exactly when each value does |
| HttpMessage.AnyLineRead | src/Networking/Http/HttpClientMT.cpp:428-440 | a header line with any number of blanks behind its first colon, or none, sets the name to the rest, or to nothing when that is one character; a line without a colon sets nothing |
| HttpMessage.SignedNumberIsRead | src/Networking/Http/HttpResponse.cpp:30-34 | a number that does not fit fails, and a minus sign wraps around |
| HttpMessage.PrintedLengthSurvivesExactly | src/Networking/Http/HttpClientMT.cpp:431-437 | a printed Content-Length is read back if and only if it has at least two digits and is not the largest number |
| HttpMessage.StatusRead | src/Networking/Http/HttpClientMT.cpp:393-416 | the status line reader undoes its printer, whatever follows |
| HttpMessage.HeadersRead | src/Networking/Http/HttpClientMT.cpp:424-441 | the header loop reads every printed header, in any order, up to the blank line |
| HttpMessage.HeadersExactly | src/Networking/Http/HttpClientMT.cpp:424-441 | a header block is accepted if and only if it consists of lines that end with carriage return and line feed, up to an empty one; every line is then added in turn |
| HttpMessage.StatusMeans | src/Networking/Http/HttpClientMT.cpp:393-412 | an accepted status line has one of two versions, a status that fits and a message up to its line end |
| HttpMessage.StatusLineEndsOnce | src/Networking/Http/HttpClientMT.cpp:388-391 | no proper prefix of a status line has a line end |
| HttpMessage.HeaderBlockEndsOnce | src/Networking/Http/HttpClientMT.cpp:413-416 | no proper prefix of a header block has a blank line |
| ResponseReader.HeadersArrive | src/Networking/Http/HttpClientMT.cpp:418-452 | the reader of the headers is at the expected point for every number of bytes received |
| ResponseReader.ChunkArrives | src/Networking/Http/HttpClientMT.cpp:393-474 | one chunk of any size moves the reader from one point of the response to the next |
| ResponseReader.EveryOutcome | src/Networking/Http/HttpClientMT.cpp:393-474 | what the client ends with for every response with a header, whatever follows the header block and however it is split into reads |
| ResponseReader.ReadsBack | src/Networking/Http/HttpClientMT.cpp:393-474 | with an absent or right length the result is the same for every split: status, headers and body recovered |
| ResponseReader.RoundTripExactly | src/Networking/Http/HttpResponse.cpp:51-58 | parsing undoes printing, for every split, if and only if every header value survives and the length is absent or right, or there are no headers and the body supplies a blank line |
| ResponseReader.SurplusBreaksExactly | src/Networking/Http/HttpClientMT.cpp:444-459 | bytes after the body break the response if and only if the read that completes the header block brings more than the whole body |
| ResponseReader.BareRoundTripExactly | src/Networking/Http/HttpClientMT.cpp:413-452 | for every split a response without headers comes back if and only if its body supplies a blank line; else it is broken by the end of the connection |
| ResponseReader.AnyBytes | src/Networking/Http/HttpClientMT.cpp:386-474 | for any bytes in any pieces: the status line is awaited exactly until a line end has come, the headers until a blank line has; a body is awaited and a response delivered only behind a status line and a header block that were accepted |
| ResponseReader.SessionReader.ReadHeaderLines | src/Networking/Http/HttpClientMT.cpp:424-441 | the loop reads the headers that the recursive reading gives |
| ResponseReader.SessionReader.HandleReadHeaders | src/Networking/Http/HttpClientMT.cpp:418-452 | the body is awaited by length, to the end, finished or broken |
| ResponseReader.SessionReader.HandleReadStatusLine | src/Networking/Http/HttpClientMT.cpp:393-416 | what is buffered after the status line is not lost |
| ResponseReader.SessionReader.Receive | src/Networking/Http/HttpClientMT.cpp:386-474 | a chunk of any size is taken as the reader prescribes, and exactly what a body of known length does not need is left |
| HttpContent.DeclaredIsBodyLength | src/Networking/Http/HttpContent.cpp:140-151 | the constants of GetLength add up to the length of the laid-out body |
| HttpContent.WritesBody | src/Networking/Http/HttpContent.cpp:127-138 | without empty parts exactly the laid-out body is written |
| HttpContent.EmptyPartCutsBody | src/Networking/Http/HttpContent.cpp:94-97 | an empty part ends the body after its headers and fails the stream |
| HttpContent.LengthIsRightExactly | src/Networking/Http/HttpContent.cpp:127-151 | the declared length equals the bytes written if and only if no part is empty |
| HttpContent.StreamLengthIsRightExactly | src/Networking/Http/HttpContent.cpp:53-63 | a stream content declares the right length exactly while nothing of it has been read |
| HttpContent.EveryAttemptIsTheSameExactly | src/Networking/Http/HttpClientMT.cpp:376-384 | every attempt writes the same to the log and to the connection if and only if the content is not an unread stream, which reaches the first log only |
| HttpContent.PromiseIsKeptExactly | src/Networking/Http/HttpClientMT.cpp:376-384 | on every attempt the connection gets as many bytes after the head as Content-Length promises if and only if the content is not a stream that holds anything |
| HttpContent.SendRequest | src/Networking/Http/HttpClientMT.cpp:376-384 | the request object is printed to the log, then to the write buffer, and is spent by that |
| HttpContent.SendAndRetry | src/Networking/Http/HttpClientMT.cpp:297-301 | log, connection and retry get the same text, but for an unread stream |
| HttpContent.RequestKeepsItsPromise | src/Networking/Http/HttpRequest.cpp:50-76 | after its head a request carries as many bytes as its Content-Length, read back, promises |
| HttpContent.DeclaresContent | src/Networking/Http/HttpRequest.cpp:50-55 | setting a content declares its length and its type and touches no other header |
| RequestReader.LineIsReadExactly | src/Networking/Http/HttpRequest.cpp:57-67 | a server finds method, path and all parameters in the request line if and only if path and parameters hold no delimiter: they are not escaped |
| RequestReader.HeadIsRead | src/Networking/Http/HttpRequest.cpp:68-71 | every header is found behind the line, as far as its value survives |
| RequestReader.BodyIsReadExactly | src/Networking/Http/HttpContent.cpp:91-138 | a server finds the parts of the laid-out body if and only if none has a blank line in its headers or a line in its data that begins like the boundary |
| RequestReader.UploadArrivesExactly | src/Networking/Http/HttpContent.cpp:116-138 | with the boundary from the content type, the parts are found in the printed request if and only if, in addition, none is empty |
| HttpContent.OutputStream.PutBuffer | src/Networking/Http/HttpContent.cpp:96 | draining an empty buffer fails the stream; a failed stream takes nothing |
| HttpContent.StreamContent.Save | src/Networking/Http/HttpContent.cpp:53-55 | writes from where the stream stands and leaves it at its end |
| HttpContent.StringContent.Save | src/Networking/Http/HttpContent.cpp:28-30 | the text is written, unless the stream has failed |
| HttpContent.StreamContent.GetLength | src/Networking/Http/HttpContent.cpp:57-63 | the whole size, with the position restored |
| HttpContent.SaveContent | src/Networking/Http/HttpContent.cpp:207-210 | whichever content it is writes its text, and is spent by that |
| HttpContent.FormPart.Save | src/Networking/Http/HttpContent.cpp:94-97 | headers, blank line and the whole stream from its start |
| HttpContent.MultipartContent.AddValue | src/Networking/Http/HttpContent.cpp:153-155 | one part is appended, with its exact size |
| HttpContent.MultipartContent.AddFile | src/Networking/Http/HttpContent.cpp:157-161 | one part is appended, with the caller's size |
| HttpContent.MultipartContent.Save | src/Networking/Http/HttpContent.cpp:127-138 | every call writes the same, wherever earlier calls left the part streams |
| HttpContent.MultipartContent.GetLength | src/Networking/Http/HttpContent.cpp:140-151 | the loop adds up the declared length |
| HttpContent.HttpRequest.AddHeader | src/Networking/Http/HttpRequest.cpp:39-43 | one header is set, nothing else changes |
| HttpContent.HttpRequest.SetContent | src/Networking/Http/HttpRequest.cpp:50-55 | the content with its length and type among the headers |
| HttpContent.HttpRequest.Print | src/Networking/Http/HttpRequest.cpp:57-76 | line, headers in table order and the content object in its present state are written; a stream content is spent |
| HttpClient.StepKeeps | src/Networking/Http/HttpClient.cpp:165-272 | every event keeps order, flight and attempts |
| HttpClient.EveryRunIsSafe | src/Networking/Http/HttpClient.cpp:165-272 | at most one request in flight; requests wait only while processing; each posted request is served, in flight, waiting or cancelled; the first three are in posting order |
| HttpClient.CallbacksInPostingOrder | src/Networking/Http/HttpClient.cpp:165-272 | without Cancel the callbacks run in posting order, each exactly once, with retries from the front |
| HttpClient.TwoAttempts | src/Networking/Http/HttpClient.cpp:173-186 | no request has more than two attempts, and a failure is reported only after two |
| HttpClient.EveryReply | src/Networking/Http/HttpClient.cpp:165-272 | in every run a request is answered with the response exactly when that was read to its end, with a failure exactly when two attempts failed, and as cancelled exactly when a Cancel came while it waited |
| HttpClient.ConnectionIsKept | src/Networking/Http/HttpClient.cpp:173-186 | in every run the connection stays open from when it is made until an attempt fails that is made again |
| HttpClient.CancelKeepsOrder | src/Networking/Http/HttpClient.cpp:211-218 | Cancel answers the waiting requests and leaves the order of the others |
| HttpClient.StartedAfterCancel | src/Networking/Http/HttpClient.cpp:173-223 | on every continuation without new requests, what is started after a Cancel: nothing, but the request in flight once more exactly when its first attempt fails and its retry is polled before a further Cancel |
| HttpClient.CancelStopsExactly | src/Networking/Http/HttpClient.cpp:173-223 | a Cancel stops all further attempts of a request if and only if it is not in flight with a retry left |
| HttpClient.StepsMakeProgress | src/Networking/Http/HttpClient.cpp:261-272 | every effective step but a post leaves less to do, and one exists while processing |
| HttpClient.Client.PostRequest | src/Networking/Http/HttpClient.cpp:225-235 | the request starts at once when the client is idle and otherwise waits behind all others |
| HttpClient.Client.PollNext | src/Networking/Http/HttpClient.cpp:261-272 | the request that waits longest starts, or the client is idle |
| HttpClient.Client.Cancel | src/Networking/Http/HttpClient.cpp:211-223 | the loop runs every waiting callback once, in order, and forgets them |
| HttpClient.Client.HandleException | src/Networking/Http/HttpClient.cpp:173-186 | the retry goes to the front with the connection closed; otherwise the failure is reported |
| HttpClient.Client.FinishReadContent | src/Networking/Http/HttpClient.cpp:437-443 | the response is reported before the next request is polled |
| JobsList.VisitsAll | src/CustomerPrintClientGui/JobsPage/PageJobsList.cpp:57-71 | for any server list the reverse loop collects the new entries in server order and refreshes the old jobs in place |
| JobsList.ReconcilesAny | src/CustomerPrintClientGui/JobsPage/PageJobsList.cpp:47-93 | for any server list: new entries in server order, then surviving jobs in old order with the update time, status and paid flag of their last entry |
| JobsList.ReconcilesDistinct | src/CustomerPrintClientGui/JobsPage/PageJobsList.cpp:47-93 | without repetition the new entries are the unlisted jobs |
| JobsList.HasLatestNews | src/CustomerPrintClientCore/PrintJobInfo.cpp:87-91 | a surviving job has the update time, status and paid flag of its last entry in the server's list, and keeps everything else |
| JobsList.FirstPlacesAreFirst | src/CustomerPrintClientGui/JobsPage/PageJobsList.cpp:53-56 | of jobs with one identifier the first is found |
| JobsList.ShowsTheServersJobs | src/CustomerPrintClientGui/JobsPage/PageJobsList.cpp:47-93 | each job is shown exactly as often as the server names it, so the page shows none twice if and only if the server names none twice |
| JobsList.SecondUpdateChangesNothing | src/CustomerPrintClientGui/JobsPage/PageJobsList.cpp:47-93 | the same list twice changes nothing the second time |
| JobsList.PrintJobInfo.UpdateFrom | src/CustomerPrintClientCore/PrintJobInfo.cpp:87-91 | only update time, status and paid flag change |
| JobsList.PageJobsList.CollectJobs | src/CustomerPrintClientGui/JobsPage/PageJobsList.cpp:53-56 | the map holds the first job of each identifier |
| JobsList.PageJobsList.RemoveJobs | src/CustomerPrintClientGui/JobsPage/PageJobsList.cpp:81-88 | the first job of each key is removed, the others keep their order |
| JobsList.PageJobsList.VisitJob | src/CustomerPrintClientGui/JobsPage/PageJobsList.cpp:58-70 | one turn of the loop: a new object in front, or one old object updated where it stands |
| JobsList.PageJobsList.UpdateContent | src/CustomerPrintClientGui/JobsPage/PageJobsList.cpp:47-93 | the loops over list, map and key set leave the reconciled list, made of the old objects and the new ones |

## Left out

- Stream state: the flags of `std::istream` are not modelled one by one. A failed input stream is a stream at the end of its text, and a read past the end is a mismatch.
- JsonParser.InputStream.ParseNumber: the extraction of a number is the standard library's; it is modelled for decimal tokens, without hexadecimal floats, infinities and locales, and without the rounding to long double.
- JsonParser.InputStream.ParseStringBody: a `\u` escape whose value does not fit the library's integer is not distinguished.
- Decimals.PrintNumber: a number is the exact decimal value of a long double, printed with correct rounding; negative zero, infinities and not-a-number are left out. A token is read as the decimal it denotes; the rounding of that to the nearest long double, which may bring back a number of seventeen digits, is not modelled.
- JsonGrammar.DocumentIsRead: it goes one way. What the parser makes of texts outside the grammar, such as comments inside a token or a text that ends early, is stated piece by piece in `JsonPermissive` and `JsonEmptyKeys`, not as one grammar.
- RequestReader.LineIsReadExactly: the server is the model's own reader, after section 3.1.1 of RFC 7230 and section 5.1.1 of RFC 2046.
- XML output, unquoted keys (switched off by the parser's settings) and the compact `operator<<` printers of jsonxx.
- JsonHeap.ValueNode.Import: the source of a copy must not share nodes with what is overwritten, unless it is the same object; the original deletes before it copies. Assigning one Value to another goes through the operator that the C++ compiler generates, which copies pointers; only `import` and the copy constructors are modelled.
- JsonHeap: destructors, and the pending key that `import` clears.
- Config.Store: the nested objects are values and the pointer that walks down is the path of keys that leads to it, so updates in place and aliasing of nested objects are not captured; `JsonHeap` has them.
- Config.Store.SetValue: streaming a number or boolean to an empty last section has no defined result in the original, and a further call while a key is pending is not followed; `Config.PairIsStored` says what streaming does.
- Config.Store.SetNull: the same for a null.
- Config.Store.Save: newline translation of a file opened in text mode, and a file that cannot be opened or written.
- JobProtocol.AnsweredKeeps: what the server sends back is one opaque string per uploaded page; names, settings, prices and error titles of jobs are not modelled.
- JobProtocol.NoJobIsStuck: that the server answers and the render thread is scheduled is not modelled; the lemma states that such a step is possible.
- Shutdown: closing flags, destructors and the empty task that wakes the render thread.
- Exceptions thrown by callbacks of the user, and callbacks that call back into a client while it holds its lock.
- Data races inside one callback: each callback is one step.
- SessionProtocol.EveryRunIsSafe: request ids are distinct; the source takes them from the clock in seconds. The thread count is at least one.
- Sockets, TLS and name lookup are reduced to operations that end as finished, aborted or failed; the bytes of the response are in `ResponseReader`, not in the engine.
- HttpMessage.ReadUnsigned: signs and overflow follow the library's extraction; digit grouping of locales does not.
- ResponseReader.EveryOutcome: which bytes stay on the connection for the next response is not followed.
- HttpContent.MultipartContent.GetLength: lengths are unbounded numbers; wrap-around of the size type is not modelled.
- HttpContent.HttpRequest.Print: an unsupported method, which the original answers with an exception, is not modelled.
- HttpClient.Client.Cancel: which asynchronous operation is cancelled is not modelled; the failure it causes is treated like any other by the source.
- JobsList.PageJobsList.UpdateContent: windows, sizers and the selected child; the server's list is made of objects that are not on the page yet.
- Rendering of documents, page layout, the map, dialogs, the tray, operating system and cryptography calls, and third-party code.

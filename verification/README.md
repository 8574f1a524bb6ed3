# QSE in Dafny

A model of the parts of QSE that keep state across calls, and proofs of what they promise: the record
reader and the stream chain of the AWK run time, field splitting and record recomposition, number
printing and scanning, substitution, the id map of the extension modules, the URL rewriting daemon
`ursd`, and the generator of the case tables.

`dafny verify dfyconfig.toml` checks everything.

## How it is laid out

| file | part of the system |
|---|---|
| `RecordSplit.dfy`, `RecordReader.dfy`, `RecordTheorems.dfy`, `ParagraphLines.dfy`, `WholeInput.dfy` | reading records: one read as a function of the stream, the buffered reader as a class that refines it, what repeated reads return, the lines of the records of blank-line mode, and the records of a whole input in terms of its lines and pieces alone |
| `StreamLife.dfy`, `StreamChain.dfy` | the chain of open streams: what a caller can see of it over whole runs, and the linked list |
| `Wire.dfy`, `RequestQueue.dfy`, `RewriterLinks.dfy`, `Accounts.dfy`, `RewriterStates.dfy`, `RewriterRuns.dfy`, `RewriterTheorems.dfy`, `RewriterPool.dfy` | `ursd`: datagrams, the pending queue on recycled blocks, the two linked lists, the account of which datagram became what, what each rewriter is doing and its process was given, what each event does, what holds of every run of events, and the server with its events as methods |
| `Fields.dfy`, `QuotedFields.dfy`, `InputRecord.dfy` | the tokenizers, the in-place quoted splitter, and $0, $1 to $NF and NF |
| `Numbers.dfy`, `IntIndex.dfy`, `FloatScan.dfy` | the two integer printers, the integer scanner, the floating-point scanner |
| `Substitution.dfy` | `sub` and `gsub` over any matcher |
| `IdMap.dfy` | the id map |
| `CasePages.dfy` | the case page generator and the lookup in the tables it emits |
| `Text.dfy`, `Pointers.dfy`, `Common.dfy` | what they share |

State that the code updates in place is a class or an array, and each method is proved against a
function of the old state. Pointers are indices into a memory held by the object, with -1 for the null
pointer, so that links can be wrong and have to be proved right. Whatever the code cannot control is a
parameter or an arbitrary choice: the answers of an I/O handler, allocations, starting a process,
registering a handle, what a pipe takes and gives, the matcher, the case functions of the locale. Where
an operation can fail, a parameter says that nothing it needs fails, and then it must succeed.

## What was found

- `ursd`: output of a rewriter that is on the free list chains it there a second time. Every run keeps
  the pool well-formed up to such an event (`RewriterPool.Server.Serve`); the event leaves links that run
  in a circle, so that no list starts at the head of the free list, whatever the count and the flags say
  (`RewriterPool.Server.OnOutput`, `RewriterLinks.Circle`, `RewriterLinks.ChainedTwice`). What later events
  do to such a pool is not modelled.
- `ursd`: the same event sends a second packet. A rewriter that is free still has the sender and the header
  of its last request in its buffer, and a bare header goes out to that sender with that seq and urlsum,
  although the request has been answered (`RewriterTheorems.SecondPacket`; for a process that answers once
  and ends, `RewriterPool.SecondReply`). A packet of an output event is the first reply to an accepted
  datagram exactly when the rewriter was busy or being fed (`RewriterTheorems.FirstReplyExactly`).
- `ursd`: a malformed datagram that takes a free rewriter gets no answer at once, but if the process then
  says anything or ends its header is sent back. Until a free rewriter speaks up these are the only packets
  that answer no request (`Accounts.EveryPacketHasCause`, `Accounts.PacketsCounted`).
- `ursd`: the multiplexer hands out a whole batch of events without looking again at what is registered
  (lines 1015-1043 of `lib/si/mux.c`). When both handles of a rewriter that is being fed are ready and
  the output comes first, the assertion of the writable event (line 806 of `cmd/http/ursd.c`) is false
  (`RewriterPool.Server.OutputThenWritable`); it holds exactly when the input is registered at the time
  (`RewriterPool.Server.WritableExactly`).
- `ursd`: the reply is never longer than the buffer, so the test for output beyond it (line 760 of
  `cmd/http/ursd.c`) never succeeds.
- `qse_awk_inttostr` prints the most negative integer as a sign and the prefix, and every other integer
  correctly (`Numbers.PrintedIsText`). `IntIndex` prints all of them correctly (`IntIndex.MakeIndex`).
- The id map compares the high mark with the capacity the wrong way round, so the table grows by 64 slots
  for every new id. It never holds more than 33554432 ids (`IdMap.FewerIdsThanSlots`).
- In every run, a close by name unlinks a two-way pipe without its handler being asked for a full close,
  or for its other end, exactly when the same end was closed before (`StreamLife.UnlinkedHalfOpen`). A close
  by type and name leaves what the handler is to close as the last close by name noted it, even one that was
  refused: the pipe goes with one end asked for exactly when that close asked for one
  (`StreamLife.UnlinkedByKey`).
- A failed assignment to a record with fields leaves NF out of date exactly when NF could not be reset,
  and one to a record without fields only then. A record that next gets no fields keeps that NF, and
  assigning any field repairs it
  (`InputRecord.Record.SetRecord`, `InputRecord.Record.SetField`).
- With case ignored a line splits at either case of a letter taken as FS, and joining the fields gives the
  line with every delimiter written as FS is (`Fields.JoinUndoesSplit`).
- A record of one empty field reads back as a record of no fields, quoted or not
  (`Fields.EmptyRecordHasNoFields`, `QuotedFields.QuotedEmptyFieldIsLost`); it is the only list that
  quoting loses.
- In blank-line mode no record has an empty line, but a line of a record can be a lone CR, with CRLF as
  well as without. Without CRLF this is so exactly when a terminated line of the input is two CRs or its
  unterminated last line is one; with CRLF exactly when a line of two CRs ends its paragraph or the
  unterminated last line is a CR (`ParagraphLines.LoneCrInRecords`, with the inputs of
  `ParagraphLines.LoneCrFirstLine`, `LoneCrLastLine` and `LoneCrRecord`).
- The table of the id map never shrinks while a node lives. Once it is as large as it can be, an
  allocation without a parked id fails, however few ids are in use (`IdMap.Map.Make`).
- The case tables are right exactly where an offset fits in 16 bits; the generator only warns otherwise
  (`CasePages.Generate`). U+0265 with its capital U+A78D is a code where it does not
  (`CasePages.FarCapitalIsLost`).

## Model

| member | source | states |
|---|---|---|
| `WholeInput.SplitChunks` | lib/awk/rio.c:295-578 | For RS unset, one character or empty, with or without CRLF, and for every way of cutting an input into chunks that fit the buffer: repeated reads return the records that its lines or pieces say and then end of input, and a read after that, even with another RS, reports the end again. The records are the pieces, less a CR for RS unset, or one for each maximal run of text lines: under CRLF the piece of the input that the run makes up less the CR of its last line, else its lines each less its CR |
| `WholeInput.ReferenceIs` | lib/awk/rio.c:413-578 | The records of the reference split are what the lines and pieces of the input say, in each mode |
| `RecordTheorems.ReadsAreReference` | lib/awk/rio.c:413-578 | One-record reads in sequence give the reference records: the pieces between terminators with CR dropped, or the maximal runs of non-blank lines |
| `RecordTheorems.ParagraphReadsAreReference` | lib/awk/rio.c:464-551 | The same for blank-line mode, from the lines of the input |
| `RecordTheorems.LineReadsAreReference` | lib/awk/rio.c:413-463 | The same for the two other modes; an unterminated last record counts only if it is not empty |
| `ParagraphLines.ParagraphRecordShape` | lib/awk/rio.c:362-551 | On any stream, failed reads included, a record of blank-line mode is not empty, has no newline at either end and no empty line; under CRLF no line but the last is a lone CR; and a line is a lone CR exactly when the lines it was made of say so |
| `ParagraphLines.LoneCrInRecords` | lib/awk/rio.c:464-551 | For both options and every input: the shape of all records, and exactly when some line of some record, the last included, is a lone CR, stated on the lines of the input |
| `ParagraphLines.LoneCrExactly` | lib/awk/rio.c:362-551 | For one paragraph: exactly when one of its lines is a lone CR, and that none is empty |
| `ParagraphLines.LoneCrFirstLine` | lib/awk/rio.c:477-488 | Without CRLF the reading of "\r\r\nx" is a record that opens with a lone CR |
| `ParagraphLines.LoneCrLastLine` | lib/awk/rio.c:362-387 | With CRLF the reading of "x\n\r" is that text, whose last line is a lone CR |
| `ParagraphLines.LoneCrRecord` | lib/awk/rio.c:494-516 | With CRLF the reading of "\r\r\n\n" is a record that is a lone CR and nothing else |
| `RecordReader.Stream.ReadRecord` | lib/awk/rio.c:295-578 | A buffered read, in whatever state earlier reads left the buffer, returns what the one-pass reader returns on the stream still to come and leaves exactly the rest of it |
| `RecordReader.Stream.FindNewline` | lib/awk/rio.c:413-463 | The newline loop stops at the first newline; a CR before it is cut off the slab, or off the record when an earlier refill brought it |
| `RecordReader.Stream.ScanNewline` | lib/awk/rio.c:413-463 | A buffer consumed by the newline loop is consumed as the one-pass reader would |
| `RecordReader.Stream.ScanSingle` | lib/awk/rio.c:552-578 | The same for the loop of a one-character RS |
| `RecordReader.Stream.ScanParagraph` | lib/awk/rio.c:464-551 | The same for blank-line mode, the record buffer and line length standing for the lines read |
| `RecordReader.EndLine` | lib/awk/rio.c:475-537 | A newline in blank-line mode: the line length counter never goes below zero and is zero exactly for a blank line, which ends a record that has begun and is skipped before one |
| `RecordReader.AtEnd` | lib/awk/rio.c:362-407 | At end of file a paragraph loses its last terminator, with its CR under CRLF, and nothing else |
| `RecordReader.Stream.ReadAll` | lib/awk/rio.c:295-411 | Reading until the first answer that is no record, over a handler that may fail at any call |
| `RecordReader.Stream.NextStream` | lib/awk/rio.c:872-945 | The next stream starts with an empty buffer and a cleared end-of-file flag; once there is none, no read returns anything |
| `RecordReader.FlattenChunks` | lib/awk/rio.c:326-411 | The stream a handler delivers does not depend on the chunk boundaries |
| `RecordSplit.NextRecordProgress` | lib/awk/rio.c:295-411 | Each read takes something off a stream that is not empty and leaves a suffix of it; end of input is reported only when nothing is left, and then always |
| `StreamChain.Run` | lib/awk/rio.c:96-1253 | For every sequence of requests, each answered as its operation promises on the chain it finds: keys are distinct at all times, every stream left open is unlinked at the end, and each stream lives by one automaton: created once, found any number of times, half closed at most once and only if two-way, unlinked once |
| `StreamChain.Chain.Serve` | lib/awk/rio.c:96-1222 | Every request keeps the keys of the chain distinct and answers as its operation promises |
| `StreamChain.Chain.FindOrCreate` | lib/awk/rio.c:96-196 | The stream with the key is found, or a new one put in front, never a second one; a failure changes nothing |
| `StreamChain.Chain.CloseKey` | lib/awk/rio.c:1018-1130 | Closing by type and name takes out that entry and no other, whatever its half-close state, exactly when there is a handler, the entry is there and the handler agrees |
| `StreamChain.Chain.Close` | lib/awk/rio.c:1132-1222 | A close by name acts on the first entry that the name and option reach: a two-way pipe with both ends open survives a half close, and any other successful close unlinks; a refused close only leaves the request noted |
| `StreamChain.Chain.Clear` | lib/awk/rio.c:1224-1253 | Every entry is unlinked, front to back, whatever the handlers answer |
| `StreamLife.ClosedFollows` | lib/awk/rio.c:1178-1213 | A close moves the closed stream on in its life and no other stream |
| `StreamLife.UnlinkedHalfOpen` | lib/awk/rio.c:1145-1206 | In every run, a close by name unlinks a two-way pipe without a full close being asked for exactly when a request before closed the same end and nothing happened to the pipe in between |
| `StreamLife.UnlinkedByKey` | lib/awk/rio.c:1042-1121 | In every run, a close by type and name unlinks a two-way pipe with its handler asked to close one end only exactly when the last close by name that reached the pipe since it was opened, refused or not, asked for one end |
| `StreamLife.AnswersFollow` | lib/awk/rio.c:96-1222 | Whatever a request does, keys stay distinct and every stream moves on in its life as the automaton says |
| `StreamLife.FirstHalfCloseSurvives` | lib/awk/rio.c:1145-1213 | In every run, a half close that reaches a two-way pipe and is not refused keeps it if none of its ends has been closed since it was opened, and else unlinks it |
| `StreamLife.CloseByName` | lib/awk/rio.c:1145-1213 | In every run: a one-way input that is the only open stream with its name is unlinked by closing the name or its reading end and not touched by closing the writing end, an output the other way round, and every close reaches a two-way pipe, which a first half close keeps; a refused close leaves the stream |
| `StreamLife.SharedStreams` | lib/awk/rio.c:37-94 | Two openings share a stream exactly when they have the same name and are the same, or a file written and appended to, or the two ends of a two-way pipe |
| `StreamLife.OpenInRun` | lib/awk/rio.c:96-196 | In every run an input is opened by the handler of its kind, for reading, or both ways if it is a two-way pipe, and fails only without that handler or if it refuses |
| `StreamLife.OpenOutInRun` | lib/awk/rio.c:96-196 | The same for an output: for writing, appending or both ways |
| `StreamLife.LifeInRun` | lib/awk/rio.c:96-1222 | At every point of a run the chain has each stream at the point of life that the log tells |
| `RewriterPool.Server.Serve` | cmd/http/ursd.c:713-988 | For every sequence of events and every outcome of the system calls: each event does what it should, step by step; the requests made are those of the accepted datagrams, in order; no packet is taken back; lists, flags, free count, registrations, pipes and accounts stay right exactly as long as no free rewriter speaks up, and that event leaves no list at the head of the free list |
| `RewriterPool.Server.Handle` | cmd/http/ursd.c:713-813 | One event does what it should: an arrival, more of a line fed, output heard, or requests handed out; without its handle watched it does nothing |
| `RewriterTheorems.RewrittenIsOutput` | cmd/http/ursd.c:735-783 | In every run, a rewritten reply goes to the sender of a datagram that arrived, with its header, and what it carries with a newline behind it is what the process wrote while it was busy with that very request: the data of the output events, in order, all of it if it fits the buffer and else a beginning of it |
| `RewriterTheorems.AnsweredInRun` | cmd/http/ursd.c:634-811 | At every point of every run until a free rewriter speaks up: each datagram is answered by exactly one reply unless it waits or is worked on, and packets with any given addressee, seq and urlsum are as many as datagrams like that answered and malformed ones sent back |
| `RewriterTheorems.ArrivalInRun` | cmd/http/ursd.c:634-711 | In every run a datagram makes the next request exactly when the length it states is its own; the request has its sender, its header and the bytes behind the header as the URL |
| `RewriterTheorems.QueuedInRun` | cmd/http/ursd.c:677-710 | In every run a datagram that finds no rewriter free joins the end of the queue, or, only without memory, is answered at once by its own header with the error code |
| `RewriterTheorems.PoolInRun` | cmd/http/ursd.c:308-514 | At every such point: the free count is the number of free rewriters, flags equal list membership and exclude each other, output and input handles are registered exactly as the process and the flag say |
| `RewriterTheorems.DrainInRun` | cmd/http/ursd.c:600-632 | In every run, draining takes the longest waiting requests in order, each is then worked on or answered, and none waits or no rewriter is free afterwards |
| `RewriterTheorems.PipesAreWhole` | cmd/http/ursd.c:429-514 | Whatever process there is has been given whole lines of requests it answered itself, and then as much of the line at hand as was fed: all of it when busy, nothing when free. No process is given a URL after half a line |
| `RewriterTheorems.FirstReplyExactly` | cmd/http/ursd.c:731-794 | A packet sent on an output event is the first reply to an accepted datagram if and only if the rewriter was busy or being fed |
| `RewriterTheorems.SecondPacket` | cmd/http/ursd.c:788-794 | What a free rewriter makes the server send is once more the header of the last request, which was answered before, to its sender; or that of the last malformed datagram; or a clear one |
| `RewriterPool.SecondReply` | cmd/http/ursd.c:767-794 | One request, one answer, and then the end of the process: the sender gets the rewritten reply and a second packet with the same seq and urlsum |
| `RewriterPool.Server.OnOutput` | cmd/http/ursd.c:731-794 | What an output event does for a busy rewriter, one being fed, one that is kept by a malformed datagram and a free one, packets included; the pool is well-formed afterwards exactly when the rewriter was not free, else the free list has become a circle |
| `RewriterPool.Server.OutputThenWritable` | cmd/http/ursd.c:799-807 | After the output of a rewriter that was being fed its input is not registered, so a writable event from the same poll finds its assertion false |
| `RewriterPool.Server.WritableExactly` | cmd/http/ursd.c:806-807 | Both assertions of a writable event hold exactly when the input is registered |
| `RewriterPool.Server.ReadOutput` | cmd/http/ursd.c:735-787 | Output joins what came before; a line that is complete goes out as the rewritten reply to the request worked on, an incomplete one leaves the rewriter busy, and no output gives it up with a bare reply |
| `RewriterPool.Server.SendRewritten` | cmd/http/ursd.c:767-783 | The packet sent from the buffer is the request's own header and the output without its newline, to the sender of the request, at most 65534 bytes |
| `Accounts.ExactlyOneReply` | cmd/http/ursd.c:634-811 | A datagram that arrived and neither waits nor is worked on has been answered by exactly one reply, to its sender and with its seq and urlsum; one that waits or is worked on by none |
| `Accounts.EveryPacketHasCause` | cmd/http/ursd.c:429-438 | Every packet that went out is a reply to a datagram that arrived, or sends the header of a malformed one back |
| `Accounts.PacketsCounted` | cmd/http/ursd.c:634-811 | Whatever one asks of addressee, seq and urlsum, the packets like that are exactly as many as the datagrams like that which were answered and the malformed ones that were sent back |
| `RewriterPool.Server.EveryDatagramAnswered` | cmd/http/ursd.c:634-811 | Exactly one reply in every valid state of the server |
| `RewriterPool.Server.EveryPacketCounted` | cmd/http/ursd.c:634-811 | The count of packets in every valid state of the server, all packets together included |
| `RewriterPool.Server.Feed` | cmd/http/ursd.c:479-514 | For any sizes of partial writes the bytes written when the rewriter becomes busy are the URL and a newline; otherwise the rest waits with the handle registered, or the rewriter is given up with one reply to its request; if nothing fails it becomes busy |
| `RewriterPool.Server.FeedWrote` | cmd/http/ursd.c:484-508 | A partial write adds exactly the next bytes of the line, to what was fed and to what the process was given |
| `RewriterPool.Server.OnWritable` | cmd/http/ursd.c:799-811 | A writable event finds a rewriter that is being fed, and ends as feeding does |
| `RewriterPool.Server.OnSocket` | cmd/http/ursd.c:634-711 | A datagram becomes the request with its sender, header and URL: the first free rewriter works on it, fed with its line if nothing fails, or it has been answered; with no rewriter free it joins the end of the queue. A malformed one keeps the rewriter or is dropped |
| `RewriterPool.Server.ReceiveWith` | cmd/http/ursd.c:640-676 | A malformed datagram leaves its rewriter on neither list with nothing sent; the request of a well-formed one is being worked on, or the one reply sent answers that request |
| `RewriterPool.Server.ReceiveToQueue` | cmd/http/ursd.c:677-710 | The request of a well-formed datagram is queued, or, only without memory, answered by a bare header with the error code |
| `RewriterPool.Server.Release` | cmd/http/ursd.c:429-459 | Releasing a rewriter sends the header in its buffer if asked, which settles what it was about; a faulty or dead process is replaced by one that has been given nothing, and any other keeps its pipe, of whole lines; the rewriter is put in front of the free list, and the result is a well-formed pool exactly when it was not there already |
| `RewriterPool.Server.Seize` | cmd/http/ursd.c:462-477 | A fed rewriter goes to the busy list and its input handle off the multiplexer |
| `RewriterPool.Server.GetFree` | cmd/http/ursd.c:408-427 | The first free rewriter is taken with its data cleared, and null is returned exactly when none is free |
| `RewriterPool.Server.HandlePending` | cmd/http/ursd.c:600-632 | Draining ends, takes the longest waiting requests in order, each of which is then worked on or answered, leaves other rewriters alone, and leaves the queue empty or no rewriter free |
| `RewriterPool.Server.StartRewriter` | cmd/http/ursd.c:351-371 | The output handle is registered exactly when the process runs, and a new process has been given nothing |
| `RewriterPool.Server.StopRewriter` | cmd/http/ursd.c:373-389 | Neither handle of a stopped process stays registered |
| `RewriterPool.Server.constructor` | cmd/http/ursd.c:815-870 | Initialization makes a well-formed pool of at least one rewriter, all of them free, whichever processes start |
| `RewriterLinks.ChainedFree` | cmd/http/ursd.c:308-317 | Chaining an unlisted rewriter to the free list keeps both lists well-formed and disjoint and the count right |
| `RewriterLinks.DechainedFree` | cmd/http/ursd.c:319-329 | So does taking one off the free list |
| `RewriterLinks.ChainedBusy` | cmd/http/ursd.c:331-338 | So does chaining an unlisted rewriter to the busy list |
| `RewriterLinks.DechainedBusy` | cmd/http/ursd.c:340-349 | So does taking one off the busy list, from any place in it |
| `RewriterLinks.FreeCountForced` | cmd/http/ursd.c:308-349 | The free count of a well-formed pool is the number of rewriters flagged as free |
| `RewriterLinks.Circle` | cmd/http/ursd.c:308-317 | A rewriter of the free list chained to it again makes the links from the head run in a circle: no list starts there |
| `RewriterLinks.ChainedTwice` | cmd/http/ursd.c:788-794 | A lone free rewriter chained again is linked to itself both ways, and no list starts at it |
| `RequestQueue.ClassInRange` | cmd/http/ursd.c:524-538 | Every packet length falls in the smallest of the 32 size classes, 2048 bytes apart, whose blocks have room for it |
| `RequestQueue.Queue.Enqueue` | cmd/http/ursd.c:516-564 | A request joins the end of the queue in a block with room for it, recycled or new; a failure leaves the queue as it was |
| `RequestQueue.Queue.Dequeue` | cmd/http/ursd.c:566-582 | The first request leaves the queue |
| `RequestQueue.Queue.Release` | cmd/http/ursd.c:584-598 | A block goes back to the chain of its own class, and the queue is not touched |
| `Fields.SplitRecord` | lib/awk/rec.c:248-336 | The splitting loop yields the fields that the token function defines |
| `Fields.NextToken` | lib/awk/misc.c:333-523 | Each of the five ways of delimiting finds the token, and where the rest begins, that its declarative description says, inside the text |
| `Fields.SplitUndoesJoinExactly` | lib/awk/rec.c:423-499 | With FS and OFS the same non-blank character, re-splitting a recomposed line returns the fields if and only if none contains the separator and the list is not one empty field |
| `Fields.JoinUndoesSplit` | lib/awk/misc.c:428-460 | With such a separator, joining the fields of any line gives the line with every character that is the separator, or the same letter if case is ignored, written as the separator; that is the line itself if and only if no such character differs from the separator |
| `Fields.LineIsSpaced` | lib/awk/misc.c:413-427 | With FS a blank or not set, the fields of any line are its maximal runs of non-space characters |
| `Fields.BlankSplitsWords` | lib/awk/misc.c:413-427 | However a line is put together of words and spaces, its fields are the words |
| `Fields.EmptyRecordHasNoFields` | lib/awk/rec.c:285-291 | The empty record has no fields |
| `Fields.EmptySeparatorSplitsChars` | lib/awk/misc.c:403-412 | With an empty FS the fields are the single characters of the line |
| `Fields.TrimmingToken` | lib/awk/misc.c:384-402 | Without a delimiter the token is the text without the spaces around it, and nothing comes after it |
| `Fields.SeveralToken` | lib/awk/misc.c:428-460 | With several delimiters that are no spaces a token ends at the first character that is one of them, case ignored if so asked |
| `Fields.MixedToken` | lib/awk/misc.c:461-513 | With spaces and other characters as delimiters a token ends at the first of the others and goes without the spaces around it, those inside it staying |
| `QuotedFields.TakeField` | lib/awk/misc.c:635-722 | The in-place scanner leaves the field's text in the array, and changes nothing before the field or from the place where the next begins |
| `QuotedFields.Compact` | lib/awk/misc.c:653-710 | No write passes the read position: what is still to be read is as it was |
| `QuotedFields.SplitQuoted` | lib/awk/rec.c:140-336 | Splitting on one array, field after field, yields the fields of the text as it was at the start |
| `QuotedFields.SplitUndoesQuoting` | lib/awk/misc.c:635-722 | Quoting, escaping and joining any list of fields is undone by the splitter, if and only if the list is not one empty field |
| `QuotedFields.FieldsOfRecord` | lib/awk/misc.c:635-722 | For any record written as fields of bare characters, escaped characters and texts in quotes however escaped, with spaces around them: the fields are those characters and texts put together without the spaces around them, spaces that are escaped, quoted or inside staying; a lone escaper at the end is kept, an open quote gives what it has, and further separators at the end count for nothing if they are spaces |
| `QuotedFields.UnquotedFields` | lib/awk/misc.c:693-707 | Fields in which nothing is special, with a separator that is no space, come back without the spaces around them, unless it is one blank field |
| `QuotedFields.QuotedEmptyFieldIsLost` | lib/awk/rec.c:285-291 | A record of one quoted empty field is a record of no fields |
| `InputRecord.Record.SetRecord` | lib/awk/rec.c:38-76 | From any record, one left by a failure included: setting $0 splits it and sets NF if there are fields, which needs NF to be reset if there were fields before; a failure at any point leaves no field, no $0 and no reference, and NF out of date exactly when there were fields and NF could not be reset |
| `InputRecord.Record.SetField` | lib/awk/rec.c:77-98 | From any record: after an assignment to field n the line is the fields joined by OFS, NF is the larger of n and the old count, skipped fields are empty, other fields unchanged and $0 is the line; a failure at any point releases every reference exactly once, and when NF is then out of date |
| `InputRecord.Record.Run` | lib/awk/rec.c:33-99 | From any record, and for any sequence of assignments to $0 and fields with failures at any point: the record holds what the assignments since the last failure make, references are always right, an assignment fails only for a reason, and NF is right if it can always be reset |
| `InputRecord.Record.Recompose` | lib/awk/rec.c:392-519 | The recomposition, and at every point of failure one reference for each field counted |
| `InputRecord.Record.Clear` | lib/awk/rec.c:354-390 | Clearing takes every reference count back to zero |
| `InputRecord.Record.Split` | lib/awk/rec.c:101-352 | Each field split off is referenced once, also when the splitting stops half-way |
| `InputRecord.Record.Reread` | lib/awk/rec.c:392-519 | A recomposed record that is set again as $0 has the same fields and line |
| `InputRecord.EitherOrder` | lib/awk/rec.c:77-98 | Assigning two fields in either order makes the same record, line and NF included; both read back and no other field changes |
| `InputRecord.LastCounts` | lib/awk/rec.c:77-98 | Of two assignments to a field only the last counts, and assigning a field what it is leaves the fields alone |
| `InputRecord.AssignmentLaws` | lib/awk/rec.c:77-98 | Assigning a field makes NF the larger of its number and the old one; the field reads back, others keep their text and skipped ones are empty |
| `Numbers.PrintThenScan` | lib/awk/misc-imp.h:30-112 | In every radix, with no prefix or a 0 read in the same base, and for 0x, 0X, 0b, 0B and 0 with radix 16, 2 and 8 also read with the base detected, printing and then scanning returns the value and consumes the text, if and only if the value is not the most negative |
| `Numbers.IntToStr` | lib/awk/misc.c:230-306 | The length query equals the length written; a buffer that is too small is not touched; nothing is written beyond the text and the null |
| `Numbers.PrintedIsText` | lib/awk/misc.c:230-306 | The printed text is the number's text exactly for all values but the most negative |
| `Numbers.StrToInt` | lib/awk/misc-imp.h:30-112 | For any text, the scanner returns what it stands for: after spaces, signs and prefix the digits as far as they go, as a positional number in the base with its sign, wrapped around once, and where they end |
| `Numbers.ScanIsPositional` | lib/awk/misc-imp.h:93-108 | Any digits scan to the number they stand for, wrapped around: wrapping at every digit makes no difference |
| `Numbers.NumeralIsScanned` | lib/awk/misc-imp.h:30-112 | A numeral as it is written, spaces if they are stripped, any signs, a prefix that fits the base asked for and digits in either case, whatever follows: the scanner reads it all, and the value is the number in its base, turned around by each minus, wrapped around |
| `Numbers.StandsExactly` | lib/awk/misc-imp.h:93-102 | A character counts as a digit exactly if it is that one of 0 to 9 and a to z in either case |
| `Numbers.LowerDigits` | lib/awk/misc.c:281-290 | Digits are printed from 0 to 9 and a to z |
| `Numbers.ScanOfDigits` | lib/awk/misc-imp.h:93-108 | Scanning the digits of a number gives the number back |
| `Numbers.MinIsLost` | lib/awk/misc.c:230-306 | What is printed for the most negative value scans as zero |
| `IntIndex.MakeIndex` | lib/awk/Awk.cpp:219-261 | The digit-reversing printer writes the text of every 64-bit integer, the most negative included, within 21 characters and with no overflow |
| `IntIndex.NoOverflow` | lib/awk/Awk.cpp:236-241 | No step of the reversal leaves the range of the integers |
| `IntIndex.BothIndices` | lib/awk/StdAwk.cpp:220-235 | Run one after the other, the two printers give the same text if and only if the value is not the most negative |
| `FloatScan.StrToFlt` | lib/awk/misc-imp.h:334-530 | Over the exact reals the scanner returns the sign times the first eighteen digits times ten to the adjusted exponent clamped to 511 either way, and how much it consumed |
| `FloatScan.TakeDigits` | lib/awk/misc-imp.h:437-459 | Nine digits are taken wherever the point falls, and the accumulator stays below 1000000000 |
| `FloatScan.PowerLoop` | lib/awk/misc-imp.h:515-522 | The product of table entries is the power of ten, and the table is not indexed past its ninth entry |
| `FloatScan.ShortNumeralsAreExact` | lib/awk/misc-imp.h:334-530 | A numeral of at most eighteen digits in range has its mathematical value |
| `FloatScan.NumeralIsScanned` | lib/awk/misc-imp.h:334-530 | A numeral as it is written, any signs, digits with at most one point and an exponent with or without sign and digits, whatever follows: the scanner reads it all, and takes its sign, digits and exponent |
| `Substitution.Substitute` | lib/awk/fnc.c:1187-1289 | For every matcher whose matches lie in the text, the loop ends and returns the gaps and expansions in order, and the number of matches taken; an error of the matcher is an error |
| `Substitution.TakenOrdered` | lib/awk/fnc.c:1197-1270 | The matches taken follow one another without overlap, none is empty right after another, and there are no more than the limit |
| `Substitution.OnlyComplete` | lib/awk/fnc.c:1197-1289 | Nothing is missed: the spans replaced are the one list in which each is what the matcher has to offer after the one before, and which ends where it has nothing to offer or the limit is reached |
| `Substitution.AmpersandIsIdentity` | lib/awk/fnc.c:1218-1270 | The source is its gaps and matches in order: replacing each match by itself gives it back |
| `Substitution.ReplacingByMatch` | lib/awk/fnc.c:1187-1289 | Replacing by an ampersand returns the source, for every matcher and limit |
| `Substitution.EscapedIsLiteral` | lib/awk/fnc.c:1243-1264 | A replacement with every ampersand escaped stands for itself |
| `Substitution.MixedReplacement` | lib/awk/fnc.c:1243-1264 | A replacement of texts, each with its ampersands escaped, and bare ampersands in between stands for those texts with the match in between, if no text before a bare ampersand ends in a backslash |
| `Substitution.BackslashBefore` | lib/awk/fnc.c:1243-1264 | If one does, the ampersand is literal and the backslash goes |
| `Substitution.EveryReplacement` | lib/awk/fnc.c:1243-1264 | Every replacement can be written so, and then stands for the texts with the match in between |
| `Substitution.LiteralBetweenGaps` | lib/awk/fnc.c:1218-1270 | Replacing by a literal text puts it between the gaps |
| `Substitution.SubIsFirstOfGsub` | lib/awk/fnc.c:1350-1358 | sub takes the first of the matches that gsub takes |
| `IdMap.Map.Run` | lib/awk/imap-imp.h:57-156 | In every sequence of allocations and releases the answers are determined: the id parked last is issued first, else the one at the high mark; with memory an allocation fails only when nothing is parked and the table is full; no id in use is issued again, and exactly the ids in use can be released |
| `IdMap.IdsInOrder` | lib/awk/imap-imp.h:57-113 | An empty map asked for one id after another issues 0, 1, 2 and so on up to 33554431, growing by 64 slots each time, and then no more |
| `IdMap.ReleasedComesBack` | lib/awk/imap-imp.h:64-156 | A released id is the next one issued, and the map is then as it was; but the highest id gives way to ids released before it, and an empty map starts over |
| `IdMap.Map.Make` | lib/awk/imap-imp.h:57-113 | The new node has an id that was not in use, the parked one or the one at the high mark, and the table leads to it; a failure changes nothing that can be seen; if memory does not run out it fails exactly when no id is parked and the table cannot grow |
| `IdMap.Map.Free` | lib/awk/imap-imp.h:115-156 | The id is free at once and no other; the highest id lowers the mark, any other is parked to be issued next, and the last live node resets the map |
| `IdMap.Map.TableIsLive` | lib/awk/imap-imp.h:98-122 | The table leads from an id to its node exactly when the id is in use |
| `IdMap.FewerIdsThanSlots` | lib/awk/imap-imp.h:74-92 | Ids never outrun the table, and there are at most 33554432 |
| `CasePages.Generate` | tools/uni-case.c:159-162 | The map is filled to its declared size and covers every code exactly when the highest code does not start a page; pages are numbered from zero, all used, and shared exactly by blocks with equal offsets; a lookup is right exactly when the offset fits in 16 bits |
| `CasePages.LookupIsExact` | lib/cmn/uni.c:129-150 | Looking a code up gives its case in the locale exactly when the offset fits in 16 bits |
| `CasePages.FarCapitalIsLost` | tools/uni-case.c:98-105 | A letter whose capital is more than 32767 codes away is looked up wrongly |
| `CasePages.PagesMade` | tools/uni-case.c:18-19 | The number of pages made against the declared number |
| `CasePages.BothSettings` | tools/uni-case.c:11-19 | Both settings of the highest code are covered, with 128 and 2176 pages |
| `CasePages.Generator.MakePage` | tools/uni-case.c:42-77 | The next block is mapped to the page with its offsets, made only if there is none; pages stay distinct |
| `CasePages.Generator.Offsets` | tools/uni-case.c:50-57 | The offset rows of a block |

## Left out

- Regular expressions: RS or FS of more than one character, and the matcher behind `sub` and `gsub`, which is any function whose matches lie in the text.
- Memory failures inside the record reader, and the error numbers of all parts.
- The raw field pointers of the record and its truncation when NF is assigned; fields are stated through their values.
- The flags and buffers of output streams, and what is written to them: of output streams only the chain is modelled.
- Wide characters in the quoted splitter, which reads into a plain `char`.
- Rounding of floating-point arithmetic, and overflow of the parsed exponent.
- Signed overflow in the integer printers and the scanner is undefined in C and taken as wrap-around here.
- Socket set-up, process spawning, signals and the command lines; a system call is an arbitrary answer.
- Global arrival order in `ursd`: order is stated among queued requests only, since a new datagram may overtake them.
- What `ursd` does with an event for a handle that was deregistered earlier in the same poll, beyond the assertion that fails; in a run an event takes place only if its handle is registered at the time.
- Value comparison, sorting, printf formatting, maps and hash tables of the AWK library, and the trait page generator, which has the shape of the case page generator.
- RewriterPool.PipeWrite: a write of a non-empty buffer that takes no byte without an error is assumed not to happen, since the feeding loop would repeat it for ever; deregistering a handle is assumed to succeed.
- RewriterPool.Server.Serve: the numbers of requests exist for the accounts only and are nothing the daemon looks at; events after the free list has become a circle are not modelled. Of a runt, the sender and the header that it leaves in the cleared buffer are arbitrary.
- Fields.SplitRecord: an FS of more than one character, which is a regular expression unless it is a question mark and four characters, is not modelled; the latter is `QuotedFields.SplitQuoted`.
- QuotedFields.SplitUndoesQuoting: the escaper differs from the separator and both quotes, and the left quote is no space and not the separator; with other choices the text cannot say where a field ends.
- QuotedFields.FieldsOfRecord: the same choices of characters; where the separator is a space, blank fields before the last one do not exist, and a last one of other spaces alone is not covered.
- Fields.MixedToken: upper case makes no space of another character, nor the other way round.
- Numbers.NumeralIsScanned: texts in which what follows the prefix could be taken for more of it are covered by `Numbers.StrToInt` alone.
- FloatScan.NumeralIsScanned: a numeral has a digit; without one the value is zero and the exponent is not read, which `FloatScan.StrToFlt` states.
- Numbers.PrintThenScan: prefixes other than the ones listed are not considered; when leading spaces are skipped, the signs and digits are not spaces.
- Fields.LineIsSpaced: a blank is a space character.

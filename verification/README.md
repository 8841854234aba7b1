# Verified models of the library services and handshakes

This project models three independent parts of a repository of small operating-system and network
programs written in C, and proves what they do over all inputs and all runs.

1. **The UDP library protocol** (`bhw4`). Clients send the books of a row to a server, one datagram per
   book, with up to five attempts each; the server keeps an index sorted by name with one book per key
   (row, shelf, position) and acknowledges with a checksum of the request; observers fetch serialized
   snapshots. The byte encoders, the index, the checksum loop and the three programs are methods over
   buffers and objects (`Checksum`, `Libraries`, `ServerProgram`, `ClientProgram`, `ObserverProgram`), each
   proved against a specification on values (`WireFormat`, `Index`, `Messages`, `Shelves`, `Attempts`), and
   `WireBytes` says what the datagrams are in plain numbers and in terms of the standard CRC-32.
   `UdpProtocol` puts the same specifications into a step machine with one server, any number of clients
   and observers, a fresh socket per attempt, and a network that drops, repeats, delays and reorders
   datagrams. `UdpInvariants`, `UdpRuns`, `UdpViews`, `UdpAttempts` and `UdpProgress` reason about all of its runs.
2. **The parallel catalogue** (`bhw2/4`). Worker processes read and sort the shelves of one row each in
   shared memory; the parent waits for them and merges all shelves (`Workers`, `Merge`, `ParallelPhase`,
   `ParallelProgress`, with the one correct result defined in `Catalogue`).
3. **Semaphore and FIFO handshakes** (`ihw7`, `ihw6`, `ihw5`). `PosixHandshake` and `SysvHandshake` are both
   proved to implement the one-slot `Channel`; `Messenger` is the leader election and the alternation.

`dfyconfig.toml` names all files; `dafny verify dfyconfig.toml` checks them.

## Where the code differs from its documentation

The models follow the code.

- The server prints that it discards a request with a broken checksum (`bhw4/server.c:77`) but goes on to
  process it. So "a request with a broken checksum is discarded" is false:
  `Messages.SomeBrokenAdditionIsStored` is such a request that is stored and acknowledged, and
  `Messages.BrokenIsDiscardedExactlyWhen` says that it holds exactly for requests of unknown type. The observer
  does discard. The statements about whole runs therefore assume a network that does not alter datagrams.
- `crc32b` advances its index twice per round (`bhw4/hash.h:7` and `bhw4/hash.h:14`), so it hashes only the
  bytes at even offsets, and it leaves out the final complement. `ChecksumTheorems` says exactly what it is
  instead, and which changes it can see. For a length of 2^32 - 1 the loop does not end
  (`Checksum.LoopEndsExactlyWhen`).
- `qsort` does not promise an order among equal elements, so none is assumed. This is why equal names keep
  two servers with the same books from sending the same bytes (`Confluence.SnapshotIsFixedExactlyWhen`). Two
  books under one key are another reason: the server keeps the one that comes first
  (`Confluence.FirstArrivalWins`). One client per row excludes that (`UdpViews.OneClientPerRowIsConsistent`).
- The merge indexes its cursors with `row * m + shelve` (`bhw2/4/main.c:128`) although a row has `n` shelves.
  That is a numbering of the shelves exactly for square libraries and single rows
  (`Cursors.CursorsApartExactlyWhen`), and with any other shape every run of the merge fails unless there is
  nothing to print (`Cursors.PrintsEverythingExactlyWhen`).
- `ihw7/client.c` repairs a semaphore value left by an earlier session and calls it a workaround for an
  occasional deadlock; `PosixHandshake.OneToken` and `PosixHandshake.SessionEnds` show that every completed
  session leaves both semaphores at zero, and nothing resets them (`sem_unlink` is never called), so every
  later session depends on the repair, and the repair always restores exactly one token. A session loses its
  last message exactly when the server, and not the client, begins the shutdown.

## Model

| member | source | states |
|---|---|---|
| `Checksum.Crc32b` | bhw4/hash.h:2-18 | The checksum loop over any part of a buffer, for every length at which it ends: the register absorbs the bytes at even offsets, in order, and is returned uncomplemented |
| `Checksum.AbsorbByte` | bhw4/hash.h:8-13 | The masked inner loop is eight steps of the reflected CRC-32 shift register |
| `Checksum.BitStep` | bhw4/hash.h:11-12 | The mask trick is a conditional exclusive or with the CRC-32 polynomial |
| `Checksum.EvenBytes` | bhw4/hash.h:7-14 | The hashed bytes are those at offsets 0, 2, 4, ..., half of the message rounded up |
| `Checksum.LoopEndsExactlyWhen` | bhw4/hash.h:7-14 | The unsigned index can reach the length exactly for lengths below 2^32 - 1 |
| `Checksum.RegisterIsLinear` | bhw4/hash.h:8-13 | The register is linear over exclusive or of start value and message |
| `ChecksumTheorems.CrcIsComplementedRfcCrcOfEvenBytes` | bhw4/hash.h:6-17 | For every message the result is the bitwise complement of the table-driven CRC-32 of section 8 of RFC 1952, written in the RFC's own terms, over the even-offset bytes |
| `ChecksumTheorems.ByteStepIsTableLookup` | bhw4/hash.h:10-13 | Eight bit steps are one table lookup and a shift by eight |
| `ChecksumTheorems.CollideExactlyWhen` | bhw4/hash.h:6-17 | Two equally long messages have the same checksum if and only if their difference on even offsets drives a zero register back to zero |
| `ChecksumTheorems.RegisterIsInjective` | bhw4/hash.h:7-15 | Absorbing a message never takes two register values to one, so an error in the register is never forgotten |
| `ChecksumTheorems.BurstIsDetected` | bhw4/hash.h:7-15 | A difference within four consecutive hashed bytes is always detected, and one on odd offsets alone never is |
| `ChecksumTheorems.FiveBytesCanCollide` | bhw4/hash.h:7-15 | Four is the widest such guarantee: in any message, at any place, some change of five consecutive hashed bytes goes unseen |
| `WireFormat.BookRoundTrip` | bhw4/liblibrary/book.c:25-53 | Decoding an encoded book, whatever follows it, returns the book and the number of bytes written |
| `WireFormat.LibraryRoundTrip` | bhw4/liblibrary/library.c:27-67 | Decoding an encoded library, whatever follows it, returns the same books in the same order and consumes exactly the bytes written |
| `WireFormat.EncodingsAreApart` | bhw4/liblibrary/library.c:27-67 | The encoding is injective and no encoding is a proper prefix of another |
| `WireFormat.EncodedSize` | bhw4/liblibrary/library.c:32-42 | Bound of a serialized library by book count and longest name |
| `WireFormat.WordsAreDistinct` | bhw4/client.c:75 | Comparing four received bytes as an unsigned int compares the bytes |
| `WireBytes.BookLayout` | bhw4/liblibrary/book.c:25-39 | An encoded book is row, shelf and position, each as four little-endian bytes in two's complement, then the name and a zero byte |
| `WireBytes.LibraryStartsWithCount` | bhw4/liblibrary/library.c:28-30 | An encoded library starts with its number of books as four little-endian bytes |
| `WireBytes.BooksInOrder` | bhw4/liblibrary/library.c:32-40 | Behind that, each book stands directly behind the books before it |
| `WireBytes.AddRequestLayout` | bhw4/client.c:46-53 | An add request is a little-endian checksum of all that follows, a zero byte, and the book |
| `WireBytes.ViewRequestLayout` | bhw4/observer.c:46-51 | A view request is a checksum and the byte 1 |
| `WireBytes.SnapshotLayout` | bhw4/server.c:99-102 | A snapshot is the checksum of the encoded library, then the encoded library |
| `WireBytes.AcknowledgementIsChecksumOfAll` | bhw4/client.c:60-78 | What the server answers and the client accepts are the same four bytes: the complemented standard CRC-32 of the even offsets of the whole request, its own checksum included |
| `WireBytes.PassesExactlyWhen` | bhw4/observer.c:64-74 | A datagram passes if and only if it has four bytes and they are that checksum of the rest |
| `WireBytes.AlteredDatagramFails` | bhw4/observer.c:68-74 | If four consecutive hashed bytes of a passing datagram are altered behind its checksum, it no longer passes |
| `WireBytes.SnapshotFitsExactlyWhen` | bhw4/observer.c:62 | A snapshot has 8 bytes, 13 a book and the names, and fits the observer's read if and only if that is at most 65535 |
| `Libraries.SerializeBook` | bhw4/liblibrary/book.c:25-39 | Writes exactly the encoding at the given place of the buffer, leaves the rest of the buffer as it was, returns the bytes written |
| `Libraries.DeserializeBook` | bhw4/liblibrary/book.c:41-53 | Reads one book and the number of bytes it took |
| `Libraries.Library.Serialize` | bhw4/liblibrary/library.c:27-43 | Writes exactly the encoding of the whole library in place and nothing else, returns the bytes written |
| `Libraries.DeserializeLibrary` | bhw4/liblibrary/library.c:45-67 | Builds a fresh library object with the books of the buffer; a negative count makes an empty one |
| `Libraries.Library.AddBook` | bhw4/liblibrary/library.c:84-99 | A known key changes nothing; a new book joins and the result is an ordered rearrangement, ties in any order |
| `Libraries.Library.constructor` | bhw4/liblibrary/library.c:9-16 | A new library is empty |
| `Index.AddKeepsIndex` | bhw4/liblibrary/library.c:84-99 | Every addition keeps name order and pairwise distinct keys, removes nothing, adds at most the given book, and leaves its key present |
| `Index.LeavesExactly` | bhw4/liblibrary/library.c:84-99 | What any stream of additions can leave is exactly the ordered rearrangements of the first book of each key |
| `Index.FirstsHaveTheKeys` | bhw4/liblibrary/library.c:85-91 | The first books have distinct keys, come from the stream, and cover every key of it |
| `Sorting.Qsort` | bhw4/liblibrary/library.c:98 | The contract of `qsort` on part of an array: that part becomes an ordered rearrangement of itself, the rest stays |
| `Sorting.SortIsUnique` | bhw2/4/main.c:19-25 | Under an order in which only equal elements tie there is one ordered rearrangement |
| `CStrings.FirstDifferenceDecides` | bhw4/liblibrary/library.c:77-82 | `strcmp` is decided by the first place where the strings differ: the smaller unsigned byte, or the end, comes first |
| `StringOrder.StringOrderIsAntisymmetric` | bhw2/4/main.c:19-25 | `strcmp` orders strings totally and only equal strings tie |
| `Confluence.IndexIsConfluent` | bhw4/liblibrary/library.c:84-99 | Streams with the same books, in any order and with any repetition, leave the same multiset of books and the same sequence of names, when a key determines its book |
| `Confluence.OneIndexWhenNamesDiffer` | bhw4/liblibrary/library.c:77-99 | When a key determines its book, streams with the same books and pairwise distinct names leave the same index |
| `Confluence.TwoIndexesWhenNamesCoincide` | bhw4/liblibrary/library.c:77-99 | If two of the first books of a stream's keys share a name, the same stream can leave two different indexes |
| `Confluence.SnapshotIsFixedExactlyWhen` | bhw4/liblibrary/library.c:27-43 | For any two streams of fewer than 2^31 books: all serialized indexes they can leave are byte-for-byte equal if and only if they agree on the first book of each key and those books have pairwise distinct names |
| `Confluence.IndexesAgreeExactlyWhen` | bhw4/liblibrary/library.c:84-99 | Two indexes left by any two streams hold the same books if and only if the streams have the same first book of each key; then their names agree place by place, and with distinct names the indexes are equal |
| `Confluence.SetOfBooksFixesSnapshotExactlyWhen` | bhw4/liblibrary/library.c:27-43 | When a key determines its book, streams with the same books always serialize to the same bytes if and only if the names of the books are pairwise distinct |
| `Confluence.FirstArrivalWins` | bhw4/liblibrary/library.c:85-91 | When it does not, two arrival orders of the same two books leave different indexes, even with different names |
| `Messages.AckIsTheAcceptedReply` | bhw4/client.c:60-80 | A reply makes `sendBook` succeed if and only if it is the server's acknowledgement of that request |
| `Messages.SnapshotIsDecoded` | bhw4/observer.c:62-76 | A snapshot passes the observer's check and decodes to the index it was made from, whatever is left in the buffer behind it |
| `Messages.SnapshotsAreApart` | bhw4/server.c:99-102 | Equal snapshots come from equal indexes |
| `Messages.AddIsDecoded` | bhw4/server.c:80-82 | The server recognises an addition and decodes the very book its client put in |
| `Messages.RequestsPass` | bhw4/client.c:50 | Every add request and the view request pass the server's check |
| `Messages.ShortOrUnknownIsIgnored` | bhw4/server.c:66-69 | A datagram of less than five bytes, or with a type byte other than 0 and 1, has no effect and no reply, and nothing else can come of it |
| `Messages.NameGoesOnInBuffer` | bhw4/server.c:80-82 | An addition that ends before its name does is completed by what the buffer held, and acknowledged for the bytes received |
| `Messages.ChecksumDoesNotGate` | bhw4/server.c:71-104 | With the received checksum replaced by any four bytes the index moves in the same ways; the reply is the acknowledgement of the replaced request for an addition, and the same reply for all else |
| `Messages.BrokenIsDiscardedExactlyWhen` | bhw4/server.c:71-104 | A request with a broken checksum has no effect and no reply if and only if its type is unknown, and leaves the index as it is if and only if it is no addition or its key is known |
| `Messages.BrokenAdditionIsStored` | bhw4/server.c:74-94 | An addition of any book with any wrong checksum does to the index what the intact one does, and is acknowledged |
| `Messages.SomeBrokenAdditionIsStored` | bhw4/server.c:74-94 | An 18-byte request with a broken checksum whose book is stored in an empty index and acknowledged |
| `ServerProgram.Server.Handle` | bhw4/server.c:48-105 | One request over the message buffer and the library object: new index, reply and buffer contents for short, add, view and unknown requests, and what is printed about the checksum |
| `ServerProgram.Server.HandleAdd` | bhw4/server.c:80-95 | The book behind the request header is added; the reply is the checksum of the whole request |
| `ServerProgram.Server.HandleView` | bhw4/server.c:97-104 | The reply is the snapshot of the library as it is, sealed with its checksum, and stands at the front of the buffer; the library stays |
| `ServerProgram.Server.ReportChecksum` | bhw4/server.c:71-78 | The reported verdict is whether the first four bytes are the checksum of the rest |
| `ServerProgram.Server.constructor` | bhw4/server.c:46-49 | The server starts with an empty library |
| `ClientProgram.SendBook` | bhw4/client.c:46-80 | Sends exactly the add request of the book, and returns 0 if and only if the reply acknowledges it; no reply is a failure |
| `ClientProgram.SendWithRetries` | bhw4/client.c:137-151 | Returns 0 if one of the first five answers acknowledges the book's request, having used the answers up to the first such one, and 1 after five that do not; it sends one copy of the request for each answer used |
| `ClientProgram.SendRow` | bhw4/client.c:111-165 | Over all shelves, lines and retries: exit code 0 if and only if every book is acknowledged within five answers, 1 if and only if some book gets five wrong answers in a row; what is sent is one copy of the book's request for each answer, book after book, and nothing else |
| `Attempts.EnoughAttemptsDecide` | bhw4/client.c:137-151 | Five answers per book always decide the row, and no more requests than that are sent |
| `Attempts.FinishedMeansAnswered` | bhw4/client.c:137-165 | A row that ends normally had an acknowledging answer for each of its books |
| `Attempts.BookIsAcknowledged` | bhw4/client.c:137-146 | The first of at most five answers that acknowledges takes the client to its next book, after as many copies of the request |
| `Attempts.BookFails` | bhw4/client.c:148-151 | Five answers that do not end the row at that book, after five copies |
| `Attempts.RowFailsExactlyWhen` | bhw4/client.c:137-165 | A row fails if and only if, after the books before it were acknowledged, some book gets five wrong answers in a row; it ends normally if and only if all books are acknowledged so |
| `Shelves.LineLength` | bhw4/client.c:125 | One `fgets` takes the line through its newline, or 1023 bytes, or what is left |
| `Shelves.LinesMakeTheText` | bhw4/client.c:125 | The pieces that successive `fgets` calls return put together are the whole file |
| `Shelves.LineMakesBook` | bhw4/client.c:125-155 | Each piece becomes exactly one book, numbered from 0 in order, named by the piece as `Shelves.ChompTakesNewlineOnly` says |
| `Shelves.ChompTakesNewlineOnly` | bhw4/client.c:128-130 | A line loses its newline if it ends in one, and nothing else |
| `Shelves.ShortLineIsOnePiece` | bhw4/client.c:122-130 | A line of at most 1022 bytes before its newline (byte 10) is one piece, and the rest is read as if it stood alone |
| `Shelves.LongLineIsCut` | bhw4/client.c:122-125 | Without a newline a piece ends after 1023 bytes |
| `Shelves.LastLineIsOnePiece` | bhw4/client.c:122-125 | A last line without a newline is a piece |
| `Shelves.ShelvesInOrder` | bhw4/client.c:111-123 | A row's books are those of its shelves in order, each shelf numbered from 0 |
| `Shelves.RowBooksAre` | bhw4/client.c:122-133 | Every book of a row carries the row number, the number of one of its shelves and a name of at most 1023 bytes |
| `Shelves.RowKeysAreDistinct` | bhw4/client.c:116-155 | With distinct shelf numbers no two books of a row share a key |
| `ObserverProgram.ReceiveLibrary` | bhw4/observer.c:46-78 | Sends the view request; returns 0 if and only if a reply of at least four bytes passes its checksum, and then the library object is what the received bytes decode to |
| `ObserverProgram.ObserveOnce` | bhw4/observer.c:92-107 | The first of five attempts whose answer passes its checksum decides, and the library shown is what that answer decodes to; a missing, short or broken answer is tried again, and the round fails if and only if none of the five passes |
| `ObserverProgram.ServerRepliesAreShown` | bhw4/observer.c:62-76 | A snapshot made by the server meets what the observer's buffer needs, passes, and shows exactly the index it was made from |
| `ObserverProgram.IntactReplyIsDecoded` | bhw4/observer.c:62-76 | Written over the request in the observer's buffer, a server snapshot passes and decodes to its index |
| `UdpInvariants.StepKeepsInv` | bhw4/server.c:48-105 | Every step of server, clients, observers and network keeps the system invariant on requests, replies, client progress, observers and index |
| `UdpInvariants.AcceptedMeansStored` | bhw4/client.c:68-80 | Whenever a client takes a reply, the book it is sending is in the server's index |
| `UdpRuns.AcknowledgedStaysStored` | bhw4/client.c:46-80 | In every run, from the moment `sendBook` returns 0 on, the index holds one and only one book under that key |
| `UdpRuns.FinishedRowIsStored` | bhw4/client.c:137-165 | A client that ends normally has each of its keys in the index, then and in every later state |
| `UdpViews.AcknowledgedBookStays` | bhw4/client.c:46-80 | With one client per row the acknowledged book itself, name included, is in the index from that moment on |
| `UdpViews.FinishedBooksStay` | bhw4/client.c:137-165 | With one client per row, so is every book of a client that ended normally |
| `UdpRuns.IndexOverAllRuns` | bhw4/server.c:80-91 | In every reachable state the index is in name order with distinct keys, is exactly the first handled book of each key, and every book in it is some client's and was requested |
| `UdpRuns.HandledWasRequested` | bhw4/client.c:46-53 | Every book the server handled was the content of a request that was sent |
| `UdpRuns.EveryRequestPasses` | bhw4/server.c:71-78 | In every run every request ever sent passes its check, so the server reports none as broken |
| `UdpRuns.RunGrows` | bhw4/liblibrary/library.c:84-99 | Between any two moments of a run the index only gains books |
| `UdpRuns.ReplyHasItsStep` | bhw4/server.c:52-104 | Every reply was produced by a server step that handled the one request sent from that socket |
| `UdpRuns.ReplyShowsAnIndex` | bhw4/server.c:97-104 | A reply to a view request is the snapshot of the index at a moment after the request was sent |
| `UdpRuns.ReplyAcknowledges` | bhw4/server.c:90-94 | Every reply to an add request is the acknowledgement its client accepts, so a book can fail by timeouts only |
| `UdpViews.AttemptBegan` | bhw4/observer.c:28-51 | Every attempt under way has the step at which it sent its request on its own socket |
| `UdpViews.AcceptedViewIsAnIndex` | bhw4/observer.c:46-76 | A view that an observer accepts is exactly the server's index at some moment between that attempt's request and its acceptance |
| `UdpViews.ReadAfterAcknowledge` | bhw4/observer.c:46-76 | A book acknowledged before the request was sent has its key in the accepted view |
| `UdpViews.AcknowledgedBookIsShown` | bhw4/observer.c:46-76 | With one client per row it has the acknowledged book itself |
| `UdpViews.ViewsGrow` | bhw4/observer.c:89-111 | Each view of an observer includes every view it accepted earlier |
| `UdpViews.ObserversNeverReject` | bhw4/observer.c:62-78 | In a network that alters nothing, every reply an observer gets passes its check and decodes, whatever its buffer holds behind it |
| `UdpViews.TwoRunsAgreeExactlyWhen` | bhw4/liblibrary/library.c:84-99 | Any two runs have indexes with the same books if and only if their servers handled the same first book of each key; then names agree place by place, and with distinct names the indexes are equal |
| `UdpViews.TwoRunsAgree` | bhw4/liblibrary/library.c:84-99 | When a key determines its book, it is enough that both servers handled the same books |
| `UdpViews.OneClientPerRowIsConsistent` | bhw4/client.c:122-133 | With one client per row and one file per shelf number a key determines its book, in every reachable state |
| `UdpAttempts.ClientsFollowTheirProgram` | bhw4/client.c:137-165 | In every run a client is where its retry loops take it on exactly the answers and timeouts it got, and has sent exactly the requests they send |
| `UdpAttempts.AdvancesExactlyWhenAcknowledged` | bhw4/client.c:75-80 | A client goes on to its next book in exactly the steps in which `sendBook` returns 0 |
| `UdpAttempts.FruitlessAttempts` | bhw4/observer.c:94-107 | Between two views an observer sends at most five requests, and each counts once |
| `UdpAttempts.ObserverGoesOnExactlyWhen` | bhw4/observer.c:94-107 | An observer makes another attempt if and only if fewer than five have failed |
| `UdpViews.RequestSize` | bhw4/client.c:46-53 | No add request of a client is longer than 1041 bytes |
| `UdpViews.SixtyThreeBooksFit` | bhw4/server.c:99-102 | In every run an index of at most 63 books serializes with its checksum into at most 65276 bytes, within the server's buffer and the observer's read |
| `UdpProgress.AttemptCanSucceed` | bhw4/client.c:46-80 | Whatever happened before, if the next request and its answer are delivered, the client moves on to its next book and the book has been added |
| `UdpProgress.ObservationCanSucceed` | bhw4/observer.c:46-78 | Whatever happened before, if the snapshot fits and request and answer are delivered, the observer accepts the index as it is |
| `UdpProgress.RowCanBeSent` | bhw4/client.c:111-165 | For any row of any shelves there is a run in which a client sends its books one after the other, each handled once, up to any place and to the end |
| `UdpProgress.LongestSnapshot` | bhw4/server.c:99-102 | For every number n of books some run reaches an index of n books whose snapshot has 8 + 1036 n bytes, which fits the buffers if and only if n is at most 63 |
| `UdpProgress.ServerCanAdd` | bhw4/server.c:48-94 | Any add request ever sent can be handled at any moment, for the first time or again, whatever the buffer holds |
| `UdpProgress.ServerCanShow` | bhw4/server.c:97-104 | So can any view request, as long as the snapshot fits |
| `UdpProgress.ClientCanSend` | bhw4/client.c:28-53 | A client between two attempts can send its current book's request, whatever the others do |
| `UdpProgress.ClientCanReceive` | bhw4/client.c:68 | Any reply ever sent to the attempt under way can be the one it receives |
| `UdpProgress.ClientCanTimeOut` | bhw4/client.c:63-73 | An attempt under way can always stay without a reply |
| `UdpProgress.ObserverCanSend` | bhw4/observer.c:28-51 | An observer between two attempts with fewer than five failures can send its request |
| `UdpProgress.ObserverCanReceive` | bhw4/observer.c:62-76 | Any reply to its attempt can be the one it receives, whatever its buffer holds, and shows an index of the run |
| `UdpProgress.ObserverCanTimeOut` | bhw4/observer.c:57-66 | Its attempt can always stay without a reply, and counts as failed then |
| `UdpProgress.AnyoneCanStart` | bhw4/client.c:83-109 | Any clients with any rows of any shelves, and any observers, can start |
| `UdpProgress.AnyRunCanAcknowledge` | bhw4/client.c:46-80 | Every run with a client between two attempts goes on to one in which its book is acknowledged |
| `UdpProgress.AnyRunCanShow` | bhw4/observer.c:46-78 | Every run with an observer between two attempts, and a snapshot that fits, goes on to one in which it accepts the index |
| `Catalogue.CatalogueIsUnique` | bhw2/4/main.c:120-143 | There is at most one sequence that holds every entry once in order of title, row, shelf, position |
| `Catalogue.CatalogueOrder` | bhw2/4/main.c:126-138 | Titles never get smaller from line to line, and equal titles come in order of row, then shelf, then position |
| `Cursors.CursorsApartExactlyWhen` | bhw2/4/main.c:118-142 | The flattened cursor index is injective and inside the array if and only if m = n or m = 1 |
| `Cursors.PrintsEverythingExactlyWhen` | bhw2/4/main.c:118-143 | Some run of the merge keeps every look-up inside the array and finds a title in each of its m·n·k rounds if and only if m = n, m = 1 or m·n·k = 0 |
| `Cursors.SharedCursorsStarve` | bhw2/4/main.c:126-142 | With more shelves than rows the shared cursors run out before all titles are printed |
| `Cursors.FullSumExactlyWhen` | bhw2/4/main.c:121-142 | Cursors within k add up to the number of titles if and only if each of them is at k |
| `Merge.FindNext` | bhw2/4/main.c:122-138 | The search finds the least unprinted head, ties to the lowest row and then shelf, and finds none only if every shelf is exhausted |
| `Merge.SearchSucceeds` | bhw2/4/main.c:121-142 | As long as a line is missing the search succeeds, and printing its result and advancing that cursor keeps the printed lines the least ones in order |
| `Merge.PrintMerged` | bhw2/4/main.c:118-143 | With sorted shelves the output is the catalogue: each of the m·n·k entries once, ordered by title, row, shelf, position; all cursors end at k |
| `Merge.CatalogueExists` | bhw2/4/main.c:118-143 | Sorted shelves of every shape that the merge can print have a catalogue |
| `Workers.UnpaidWorker` | bhw2/4/main.c:36-76 | Returns 0 if and only if each file of the row exists and has k lines, and then every shelf in the row's memory is a sorted rearrangement of the first k lines of its file; otherwise the row's verdict becomes 1; in every case exactly one post on the row's semaphore |
| `Workers.SharedRow.constructor` | bhw2/4/main.c:88-98 | A row starts with a zero semaphore and verdict and empty titles |
| `Workers.DoneRowsAreSorted` | bhw2/4/main.c:57-70 | Finished rows meet what the merge needs |
| `Workers.DoneRowsGiveOneCatalogue` | bhw2/4/main.c:57-143 | However equal lines were sorted, finished rows of the same files have the same catalogue |
| `ParallelPhase.StepKeepsInv` | bhw2/4/main.c:36-116 | Every step of any worker or of the parent keeps the invariant on workers, semaphores, results and rows |
| `ParallelPhase.MergeStartsOnFinishedRows` | bhw2/4/main.c:108-118 | In every interleaving, when the parent starts merging all workers have finished successfully and every shelf is sorted |
| `ParallelPhase.CompletedRun` | bhw2/4/main.c:90-147 | A completed run returns 0 and prints the catalogue if and only if all files have k lines; otherwise it returns 1 and prints none |
| `ParallelPhase.ScheduleIndependence` | bhw2/4/main.c:90-147 | Any two completed runs over the same files return the same code and print the same lines |
| `ParallelProgress.StepDecreases` | bhw2/4/main.c:36-116 | Every step, by whichever process, lowers the number of statements left |
| `ParallelProgress.EveryRunEnds` | bhw2/4/main.c:36-147 | No run has more steps than that number at its start |
| `ParallelProgress.NeverStuck` | bhw2/4/main.c:90-147 | Until the parent returns, some process can move, for every shape the merge can print |
| `ParallelProgress.WorkersRunFreely` | bhw2/4/main.c:100-105 | In every reachable state each worker that was forked and has not exited can move, whatever the parent and the other workers do |
| `ParallelProgress.ParentBlockedExactlyWhen` | bhw2/4/main.c:108-116 | The parent cannot move if and only if it waits for a post that has not come, has returned, or has a shape to merge that cannot be printed |
| `ParallelProgress.AnySortIsPossible` | bhw2/4/main.c:69 | A worker may leave any ordered rearrangement of the shelf it sorts |
| `ParallelProgress.EveryRunCanBeCompleted` | bhw2/4/main.c:90-147 | Every run so far goes on to a completed one, unless all files are readable and the shape cannot be printed |
| `ParallelProgress.AnyLayoutCanStart` | bhw2/4/main.c:88-98 | Every shape has a start |
| `ParallelProgress.PrintedTitlesAreTheLines` | bhw2/4/main.c:57-69 | A completed run prints for each row and shelf exactly the first k lines of that row's and shelf's file, each once and sorted, with its row and shelf numbers |
| `Channel.RunConserves` | ihw7/client.c:70-97 | The one-slot channel keeps sent equal to delivered plus the slot, loses nothing when the sender closes it and exactly one message when the receiver does |
| `Channel.DeliversInOrder` | ihw7/server.c:76-101 | What a channel delivers is a prefix of what was sent, at most one message behind |
| `PosixHandshake.StepKeepsInv` | ihw7/client.c:59-97 | Every statement of either program, every signal and every restart keeps the token and message invariants |
| `PosixHandshake.OneToken` | ihw7/client.c:59-65 | Through any number of sessions, semaphores and holders together own exactly one token from the repair until the server exits |
| `PosixHandshake.LoopsExclude` | ihw7/client.c:70-96 | The two programs are never both inside their loop bodies, both semaphores stay binary, and the start-up runs while the server waits |
| `PosixHandshake.ClientOnChannel` | ihw7/client.c:75-96 | Writing a message puts it into the channel, raising the shutdown flag first closes it, all else is invisible |
| `PosixHandshake.ServerOnChannel` | ihw7/server.c:79-100 | Printing takes from the channel, raising the shutdown flag instead discards, all else is invisible |
| `PosixHandshake.RefinesChannel` | ihw7/server.c:76-101 | Within a session every step is a channel step or invisible |
| `PosixHandshake.SessionIsChannelRun` | ihw7/client.c:70-97 | A whole session is a run of the channel |
| `PosixHandshake.SessionDelivers` | ihw7/server.c:93-97 | In every run what the server prints is a prefix of what the client sent and lags by at most one |
| `PosixHandshake.ClosedByServerExactlyWhen` | ihw7/server.c:93-94 | At every moment of every session the channel is closed with a message lost if and only if the server has raised the shutdown flag in place of printing |
| `PosixHandshake.SessionEnds` | ihw7/client.c:79-93 | At joint exit of any session both semaphores are 0; everything sent was printed if and only if the server did not begin the shutdown, and the last message alone is missing if and only if it did |
| `PosixHandshake.SessionBegan` | ihw7/server.c:71-76 | Every moment of every run belongs to a session |
| `PosixHandshake.NeverStuck` | ihw7/client.c:59-97 | Until both have exited one of the programs can move |
| `PosixHandshake.StopLeadsToExit` | ihw7/server.c:93-94 | Once a stop flag is set every program step lowers a measure that no signal raises |
| `PosixHandshake.StopBoundsSteps` | ihw7/server.c:76-101 | So at most twenty more program steps happen in that session, in any run |
| `PosixHandshake.SignalEndsSession` | ihw7/server.c:16 | After a signal to either program, at whatever moment, at most twenty more program steps happen in its session, in any run |
| `PosixHandshake.LaterSessionStartsEmpty` | ihw7/client.c:27-35 | Every session but the first starts on two empty semaphores |
| `PosixHandshake.ClientBlockedExactlyWhen` | ihw7/client.c:70-96 | In any state the client cannot move if and only if it has left or waits for an empty semaphore |
| `PosixHandshake.ServerBlockedExactlyWhen` | ihw7/server.c:76-101 | Likewise the server |
| `PosixHandshake.AnythingCanBeWritten` | ihw7/client.c:76-78 | Any number can be the message that is written and sent |
| `PosixHandshake.OutsideCanAct` | ihw7/server.c:16 | Either signal can come at any moment and sets that program's flag only; a new session can start if and only if both programs are gone |
| `PosixHandshake.ClientCanEndSession` | ihw7/client.c:79-93 | For any messages there is a session that prints them all and ends by a signal to the client, with both programs gone |
| `PosixHandshake.ServerCanEndSession` | ihw7/server.c:93-100 | For any messages and one more there is a session that ends by a signal to the server after the last was written, with both programs gone and exactly that one lost |
| `SysvHandshake.StepKeepsInv` | ihw6/client.c:52-100 | Every single `semop` or memory access of either program keeps the turn and message invariants |
| `SysvHandshake.RefinesChannel` | ihw6/server.c:76-114 | Every step is a step of the same channel or invisible, and no message is ever discarded |
| `SysvHandshake.RunDelivers` | ihw6/server.c:85-97 | Every run is a run of the channel, and what is printed is a prefix of what was sent, at most one behind |
| `SysvHandshake.RunIsSafe` | ihw6/client.c:64-99 | Both semaphores stay in {0, 1}, the two sections exclude each other, and once the client shuts down everything sent is printed |
| `SysvHandshake.ExactlyOneCanMove` | ihw6/client.c:52-100 | Until both have exited exactly one of the two can move, so there is no deadlock |
| `SysvHandshake.SectionsAlternate` | ihw6/server.c:76-114 | In every run the two enter their sections strictly in turns, the client first |
| `SysvHandshake.StopLeadsToExit` | ihw6/client.c:68-83 | Once the client is told to stop every step lowers a measure |
| `SysvHandshake.SignalEndsRun` | ihw6/client.c:13 | After a signal to the client, at whatever moment, at most fourteen more program steps happen |
| `SysvHandshake.BlockedExactlyWhen` | ihw6/client.c:52-100 | In any state a program cannot move if and only if it has left, waits for a semaphore that is not zero, or would lower one that is |
| `SysvHandshake.AnythingCanBeWritten` | ihw6/client.c:64-67 | Any number can be the message that is written and sent |
| `SysvHandshake.AnyRunCanEnd` | ihw6/client.c:68-83 | For any messages there is a run that prints them all and ends, after a signal, with both programs gone |
| `Messenger.StepKeepsInv` | ihw5/messenger.c:9-99 | Every read or write of either process keeps the invariant on pace, FIFOs and turns |
| `Messenger.FifosAreFaithful` | ihw5/messenger.c:64-99 | Each side has read a prefix of what the other wrote, and each FIFO holds at most two items |
| `Messenger.OneLeader` | ihw5/messenger.c:14-34 | The first item each process reads is the other's PID, which is what it compares with, and the process with the larger PID writes first |
| `Messenger.WritesAlternate` | ihw5/messenger.c:66-99 | From then on messages are written strictly in turns |
| `Messenger.NeverStuck` | ihw5/messenger.c:64-99 | The two are never both blocked on empty FIFOs |
| `Messenger.EveryRunGoesOn` | ihw5/messenger.c:66-99 | Every run has a further step |
| `Messenger.ReaderIsBlockedExactlyWhen` | ihw5/messenger.c:86 | A process that is to read cannot move if and only if its FIFO is empty |
| `Messenger.WriterCanWrite` | ihw5/messenger.c:70-72 | A process that is to write always can: its PID first, any message later |
| `Messenger.AnyPidsCanStart` | ihw5/messenger.c:14 | Any two different PIDs can start |

## Left out

- Sockets, address resolution, directory traversal, printing, `sleep` and real timeouts: a timeout is an attempt without a reply, and files, received datagrams and random messages are inputs.
- `bhw3`: the same index and wire format over TCP without duplicate suppression.
- `bhw2/5` and `bhw2/7`: the first is the same algorithm with named semaphores that may keep values of earlier runs, the second is unfinished.
- `ihw8`: the same code as `ihw7` beside an unused ring-buffer type.
- `bhw1`, `ihw2`, `ihw3`, `ihw4`: punctuation counting, shell snippets, small arithmetic loops and a file copy.
- Failing system calls, signals inside blocked calls, `mmap` and shared-memory clean-up, memory leaks, alignment; `fopen` failures in `bhw4/client.c` and the `fclose(NULL)` of a `bhw2/4` worker after its post.
- The pointers of the library object: `Libraries.Library` holds its books as a sequence of values and sorts them in a local array, so sharing of book objects is not captured.
- The books of a `bhw2/4` row are strings in one array; the separate memory regions behind them are not captured.
- Lines with embedded NUL bytes, for which `bhw4/client.c:128` reads before its buffer, and shelf files of 2^31 bytes or more.
- An index of 2^31 - 1 books, where the count of `bhw4/liblibrary/library.c:93` overflows.
- ServerProgram.Server.Handle: a datagram marked as an addition must hold a terminated name somewhere in the buffer, and a requested snapshot must fit the buffer, because the source reads or writes outside it otherwise; the step machine has no step there either.
- ObserverProgram.ReceiveLibrary: a reply that passes its checksum must decode inside the buffer, because the source reads past it otherwise.
- ObserverProgram.ObserveOnce: one round of the observer's endless loop, and likewise only replies that decode inside the buffer if they pass their checksum.
- Altered datagrams in the step machine; `Messages.ChecksumDoesNotGate` says what the server would do with one.
- Opening the FIFOs of `ihw5`, where a process can read end-of-file before its peer has opened them: the model starts with both ends open.
- Starting the client of `ihw6` or `ihw7` before the server has initialised the shared memory, and overlapping sessions.
- Merge.PrintMerged: a square library, a single row or an empty one is required, because the source reads outside its cursor array or prints a null pointer for every other shape, as `Cursors.PrintsEverythingExactlyWhen` shows.
- Sorting.Qsort: says nothing about the order of equal elements, because `qsort` does not.
- UdpRuns.FinishedRowIsStored: says that the key is stored; which of two books that share a key is stored depends on which was handled first.

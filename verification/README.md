# Pixur: a verified model

Pixur is a picture server. Much of it is bookkeeping over a transactional store: ids handed out by several servers,
counters kept next to the rows they count, rows that refer to one another, pages of a listing joined by tokens. This
project models that bookkeeping in Dafny, together with the self-contained codes and data structures it rests on, and
proves what the code is meant to guarantee: for every input, for every reachable state, over every run.

Each file is one module.

| file | what it models |
|---|---|
| `Prelude.dfy`, `Lists.dfy` | 64-bit integers, results, lexicographic order; selecting, counting, sorting and turning round |
| `Varint.dfy` | the order-preserving, prefix-free base-32 code of ids |
| `CompositeIds.dfy` | user event ids, pic file ids and file paths, made of several codes |
| `IdAlloc.dfy`, `IdProtocol.dfy`, `IdDeadlock.dfy` | the id cache of one server; servers and threads sharing one sequence row; who waits for whom |
| `Sql.dfy`, `ScanRange.dfy`, `ScanText.dfy`, `ScanReading.dfy`, `ScanStatement.dfy`, `LibPq.dfy` | the SQL of scans: how statements are read, meaning of range clauses, statement text and what is read of it, building it, numbering of parameters |
| `IndexPager.dfy`, `UserEvents.dfy` | the two pagers |
| `CommentTree.dfy`, `Viewer.dfy`, `PageOrder.dfy`, `Comments.dfy` | comments: table, tree, wire list, page |
| `Tags.dfy`, `TagRuns.dfy` | tagging and purging, tag usage counts |
| `Indexes.dfy`, `Votes.dfy`, `Notifications.dfy` | numbered rows, votes and their counters, the user events that tasks leave behind |
| `Pics.dfy` | upload, soft and hard deletion, restoring |
| `Bits.dfy`, `CapSet.dfy`, `Capabilities.dfy` | capability sets, and changing them through a form |
| `Users.dfy`, `Auth.dfy`, `UserTokens.dfy` | starting a job for a user; a user's tokens |
| `Hash.dfy`, `SimilarPics.dfy` | perceptual hashes and their distance; looking for similar pics |

Objects that the source updates in place are classes here (`IdAlloc`, `ScanStmt`, the pager tasks, the comment nodes,
`CapSet`, jobs over tables); loops are methods. Each is tied to functions of its inputs or of its old state, and the
theorems are lemmas about those functions. A table is a map or a set of rows. A task is one atomic transition on the
tables, since its transaction is serializable; its commit may fail. Rows that a find returns are copies. The id allocator
and the start of a job are the exceptions: there, steps of several threads interleave.

`dafny verify dfyconfig.toml` verifies the whole project.

## What the proofs found

- **A list of good tag names can be refused.** `buildTagIdList` looks for a duplicate under the unique form of a name
  in a map keyed by the names as given (be/tasks/add_pic_tags_task.go:151). `Tags.UpsertTags` states exactly when this
  goes wrong: an earlier name is, letter for letter, the unique form of a later one. `Tags.GoodNamesRefused` has two
  such names; `Tags.CleanNamesApart` shows that it takes a name that cleaning changes.
- **The answer to a search for similar pics can hold pics that are not.** The scan starts at the perceptual hashes and has
  no end, so it goes on through the SHA512/256 digests of all files, and compares their first eight bytes with the hash
  too. The answer is right exactly when every pic that a digest strikes is alike as well, and lists a pic twice exactly
  when both hold of it (`SimilarPics.AnswerRight`, `SimilarPics.AnswerRepeats`; `SimilarPics.DigestStrikes` has hashes
  that differ everywhere, and a digest that strikes).
- **A job that allocates two ids can wait for ever.** If it reserved the first one itself, it holds the row of the
  sequence. A refill of the same server that begins then holds the lock of the allocator while it waits for the row, and
  the job waits for that lock. This can happen, it stays until the refill fails, and no other threads can wait for one
  another in a circle (`IdDeadlock.DeadlockReachable`, `IdDeadlock.EmbraceForever`, `IdDeadlock.CycleIsEmbrace`).
- **A range over indexes without columns is written as a statement that cannot be read**, with nothing behind its
  ORDER BY. Every other statement of a scan is read as what was asked for (`ScanReading.StatementReads`).
- **Pics created before 1970 are never listed**, and **a page size of zero never gets anywhere**
  (`IndexPager.ListingComplete`, `IndexPager.StuckAtZero`, `UserEvents.StuckAtZero`).
- **An ascending page that starts at a pic from before 1970 lists pics that are hidden.** The start id moves the lower
  end of the query below that of the listing. A page shows a pic that is not to be listed then, and only then
  (`IndexPager.OldStartShowsHidden`).
- **The hard limit on scanned events hides events.** When the cut-off ends a scan early, no token is returned for what
  lies behind it. A page loses events when the rows up to the cut hold too few visible ones and another lies behind
  them. Following the tokens gives all visible events exactly when none of the pages at 0, max, 2 max and so on does
  (`UserEvents.FollowNext`; `UserEvents.CutLosesEvents` has three rows on which this goes wrong). Nothing is lost when
  all events are visible, however many there are (`UserEvents.FollowsAll`).
- **The code of 2^64-1 cannot be followed by anything**, because the overflow test compares the whole input. So an event
  id or a file id reads back except when a field that another follows is -1; ids are told apart all the same
  (`Varint.RoundTripWithTail`, `CompositeIds.EventRoundTrip`, `CompositeIds.EventIdsApart`).
- **A capability list with a duplicate in it counts as changed**, whatever is changed (`Capabilities.UpdateCaps`).
- **Purging a pic leaves the votes on its comments behind.** The counters stay right all the same, because comment ids
  are not used again (`Votes.RunKeeps`).

## Model

| member | source | states |
|---|---|---|
| Varint.EncodeOrderIff | be/schema/varint.go:204-230 | Codes sort byte by byte exactly as their numbers do, unsigned. |
| Varint.PrefixFree | be/schema/varint.go:204-230 | No code is the beginning of another: a text that starts with codes of two numbers has them equal, and the same rest. |
| Varint.DecodeExact | be/schema/varint.go:250-276 | An input is read as v over so many bytes exactly when those bytes are, lower-cased, the code of v, and nothing follows if v is 2^64-1. So whatever is accepted encodes back to what was consumed, and nothing accepted wraps around. |
| Varint.RoundTrip | be/schema/varint.go:250-294 | Every 64-bit value is read back from its code, all of it. |
| Varint.RoundTripWithTail | be/schema/varint.go:261-263 | With bytes after it, a code is read as before, unless it is that of 2^64-1, which then overflows. |
| Varint.OverflowCheck | be/schema/varint.go:261-263 | The comparison with the greatest code refuses exactly the texts of full length whose digits are more than that code has, or equal with more to come. |
| Varint.MaxValueShape | be/schema/varint.go:18-20 | The greatest code is `w` followed by the digits of what 2^64-1 exceeds the `w` prefix by. |
| Varint.SymbolTable | be/schema/varint.go:167-200 | The digits are those of the table, in its order. |
| Varint.BaseIsSourceFormula | be/schema/varint.go:23-40 | The prefixes computed here, one from the other, are those of the closed formula in the source. |
| Varint.Append | be/schema/varint.go:204-230 | The encoder, which fills its buffer from the back, appends the code. |
| Varint.FillDigits | be/schema/varint.go:224-227 | The loop writes the base-32 digits of the number behind the first byte, and leaves that. |
| Varint.DecodeBytes | be/schema/varint.go:250-276 | The decoder with its accumulator loop is the decoding function of the theorems, errors included. |
| CompositeIds.EventRoundTrip | be/handlers/find_user_events_handler.go:21-45 | An event id reads back as the user, time and index it was made of exactly when no -1 is followed by another field, an index of zero being left out; otherwise it is refused, never misread. |
| CompositeIds.EventIdsApart | be/handlers/apiconvert.go:172-180 | Different events have different ids. |
| CompositeIds.AcceptedEventIds | be/handlers/find_user_events_handler.go:21-45 | An accepted id is, but for case, the id of what it is read as; only a zero index may be spelled out. |
| CompositeIds.EventOrderIff | be/handlers/apiconvert.go:172-180 | Event ids sort byte by byte exactly as (user, time, index) do, unsigned. |
| CompositeIds.AppendEventId | be/handlers/apiconvert.go:172-180 | The appending code builds the id of the theorems. |
| CompositeIds.ParseEventId | be/handlers/find_user_events_handler.go:21-45 | The cursor moved through the text parses as the function of the theorems. |
| CompositeIds.FileRoundTrip | be/handlers/read_pic_handler.go:42-52 | A file id reads back as pic and index exactly when the pic is not -1 or there is no index. |
| CompositeIds.ParseFileId | be/handlers/read_pic_handler.go:42-52 | The handler parses as the function of the theorems. |
| CompositeIds.TrimmedId | be/handlers/apiconvert.go:30-31 | Cutting the last byte off the id of file 0 leaves the id of the pic. |
| CompositeIds.PicBaseDir | be/schema/pic.go:52-61 | Below the root, one directory for each symbol of the code but the last, named by it. |
| CompositeIds.ExtsInverse | be/schema/picfile.go:9-23 | The tables from formats to extensions and back are inverse to each other. |
| CompositeIds.PathsApart | be/schema/picfile.go:42-61 | Different pics, kinds of file, indexes or formats never share a path. |
| CompositeIds.NeverFileAndDir | be/schema/picfile.go:42-61 | No file has the path of a directory that some pic needs. |
| IdAlloc.IdAlloc.TakeCached | be/schema/db/idalloc.go:203-217 | With the cache seen as a queue: takes its head, and only its head; keeps `total` the number of ids in the ranges; the panic is not reached. |
| IdAlloc.IdAlloc.AllocIdJob | be/schema/db/idalloc.go:198-220 | A cached id; or, when there is none, the number in the one row of the sequence, which goes up by one: exactly when there is one row and its number is neither negative nor the greatest. Each refusal has exactly its cause, and the cache stays as it is. |
| IdAlloc.IdAlloc.Refill | be/schema/db/idalloc.go:139-158 | From the second check on: below the low watermark it succeeds exactly when there is one row, its number n is not negative, the ids missing up to the high watermark fit above it, and the commit is acknowledged. Then n, n+1 and so on are behind the ids cached before, up to the high watermark, and the row has gone up by as many. Each failure has exactly its cause and leaves the cache as it was. |
| IdAlloc.IdsAppend | be/schema/db/idalloc.go:155-156 | A range appended to the cache is appended to the queue. |
| IdAlloc.IdsSkip | be/schema/db/idalloc.go:205-213 | Ranges that are used up can be dropped from the front. |
| IdProtocol.NoIdTwice | be/schema/db/idalloc.go:68-220 | Over every interleaving of any servers and threads, with commits that fail or are applied and still report an error, no id is given out twice. |
| IdProtocol.CachesApart | be/schema/db/idalloc.go:117-158 | In every reachable state a cached id is below the committed sequence, is in one place of one cache, and has not been given out. |
| IdProtocol.GivenInRange | be/schema/db/idalloc.go:68-106 | Ids given out are positive and below the greatest 64-bit number. |
| IdProtocol.GivenGrows | be/schema/db/idalloc.go:165-191 | What has been given out stays given out. |
| IdProtocol.RunKeepsInv | be/schema/db/idalloc.go:68-220 | Every run keeps the invariant: each id has one place, the row lock and the allocator lock are held as the phases say, the pending value of the row counts up from the committed one. |
| IdProtocol.RefillSteps | be/schema/db/idalloc.go:138-157 | Undisturbed, and whenever the ids missing fit above the sequence, the steps of a refill can be taken and put exactly these ids into the cache. |
| IdProtocol.StepKeepsPlaces | be/schema/db/idalloc.go:117-220 | Each step moves ids from the sequence to one place, or from a cache or a transaction to the callers. |
| IdDeadlock.CycleIsEmbrace | be/schema/db/idalloc.go:117-220 | In every reachable state, threads wait for one another in a circle exactly when a job that holds the row asks for another id while a refill of its server waits for the row. |
| IdDeadlock.SomebodyProceeds | be/schema/db/idalloc.go:117-220 | In every other reachable state, going from a thread to the one it waits for leads, three times at most, to one that can go on without a failure. |
| IdDeadlock.EmbraceForever | be/schema/db/idalloc.go:138-152 | Once two threads are in that state they stay there, whatever the others do, until the refill gives up with an error. |
| IdDeadlock.DeadlockReachable | be/tasks/add_pic_tags_task.go:238-246 | A run of one server with one job and one refill that gets there. |
| ScanRange.RangeMeaning | be/schema/db/db.go:399-422 | The clause built, with its arguments bound to its placeholders in order, holds of a row exactly when the key of the row is beyond the bound in the order of tuples, strictly or not as asked, for any number of columns. |
| ScanRange.BuildRange | be/schema/db/db.go:399-422 | The nested loops write the text of that clause and its arguments in order; more values than columns are refused. |
| ScanRange.BeyondStep | be/schema/db/db.go:375-398 | Being beyond a bound, column by column: the first column decides, or it is equal and the rest decides. |
| ScanText.ScanMeaning | be/schema/db/db.go:282-348 | The conditions of a range scan hold of a row exactly when its key lies in the interval from start to stop. |
| ScanText.OrderMeaning | be/schema/db/db.go:350-366 | The ORDER BY list puts rows in tuple order, or in the reverse of it. |
| ScanReading.StatementReads | be/schema/db/db.go:229-366 | Every statement of a scan, with a prefix, a range or neither, is read word by word as what the options ask for; only a range without any column gives a text that cannot be read. |
| ScanReading.OrMeans | be/schema/db/db.go:399-422 | The comparison signs and connectives read from a clause hold of a row exactly when the clause does. |
| ScanReading.OrderReadMeans | be/schema/db/db.go:350-366 | The words ASC and DESC read behind the columns order two rows as the options ask. |
| ScanReading.ItoaReads | be/schema/db/db.go:250-252 | The digits written for a limit are read as that limit. |
| ScanStatement.ScanStmt.BuildScan | be/schema/db/db.go:229-261 | The buffer grown piece by piece is the text of the statement, and the arguments are those of its placeholders; every error as in the source. A reader that knows nothing of how it was built finds in the text the table, conditions that hold of exactly the rows wanted, directions that order rows as asked, forwards or in reverse, and the limit. |
| ScanStatement.ScanStmt.AppendRange | be/schema/db/db.go:282-348 | Appends a text that is read as conditions for exactly the interval and as the order asked for, or reports two starts, two stops, or too many values. |
| LibPq.FixLibPqQuery | be/schema/db/postgres.go:120-130 | Splitting at question marks and joining with numbers puts `$k` for the k-th of them. |
| LibPq.NumberSplit | be/schema/db/postgres.go:120-130 | What the parts with numbers between them spell. |
| LibPq.NumberPlain | be/schema/db/postgres.go:120-130 | On the text of a statement this numbers the placeholders and touches nothing else. |
| LibPq.StatementNumbered | be/schema/db/postgres.go:120-130 | Every statement that `buildScan` builds has as many placeholders as arguments, and after rewriting they are numbered in order, so each argument stays bound to its place. |
| LibPq.ItoaInjective | be/schema/db/postgres.go:126-126 | Different parameters have different numbers. |
| IndexPager.ReadIndexPicsTask.Run | be/tasks/read_index_pics_task.go:116-216 | The task fills in the page of the theorems: its pics, next and previous ids; negative sizes are refused. It holds no more pics than were asked for, or by default, or are allowed, and as many if there are more to come. |
| IndexPager.FollowNext | be/tasks/read_index_pics_task.go:137-215 | Following the next id from an empty start lists every listed pic once, in order, and then stops. |
| IndexPager.ListingComplete | be/tasks/read_index_pics_task.go:137-160 | What is listed: every pic that is not hidden and not older than 1970, and no other, in (order, id) order or its reverse. |
| IndexPager.PageIsPageAt | be/tasks/read_index_pics_task.go:129-213 | For any start id, be it of a listed pic, a hidden one or none: the page is the slice of the list from the place of the bound that the id stands for, with the ids of the pics after and before it. The list is the listing; for a start from before 1970, all rows from its bound on. |
| IndexPager.StartPicNearest | be/tasks/read_index_pics_task.go:43-71 | The pic that a start id stands for is the one with the nearest id in the direction of the page; none exactly when there is none that way. |
| IndexPager.PlaceOfListed | be/tasks/read_index_pics_task.go:148-156 | The id of a listed pic stands for the position of that pic. |
| IndexPager.OldStartShowsHidden | be/tasks/read_index_pics_task.go:144-170 | A page shows a pic that is hidden or from before 1970 exactly when it is ascending and its start id stands for a pic from before 1970. |
| IndexPager.BackFromPrev | be/tasks/read_index_pics_task.go:176-214 | From any start id but those of pics from before 1970: asking the other way from the previous id gives exactly the pics just before the page, nearest first; there are none exactly when there is no previous id. |
| IndexPager.WalkFrom | be/tasks/read_index_pics_task.go:137-215 | From any start id but those of pics from before 1970, each further page continues where the last one ended; the next id is missing exactly at the end. |
| IndexPager.StuckAtZero | be/tasks/read_index_pics_task.go:86-112 | With a page size of zero every page is empty and points to itself. |
| UserEvents.FindUserEventsTask.Run | be/tasks/find_user_events_task.go:30-170 | The task fills in the page of the theorems, from events and keys as the batched loop finds them; a start key of another user is refused. By these rules the page holds only events that may be seen, and of the rows before one on it, or before the next one, all that may be; without a next one all there are, if the rows are fewer than the hard limit. It holds no more than was asked for, or by default, or is allowed. |
| UserEvents.ScanVisible | be/tasks/find_user_events_task.go:89-117 | The loop of batches, each starting behind the last row of the one before, scans the rows in order, none twice, and cuts off as the function of the theorems does. |
| UserEvents.LoopExact | be/tasks/find_user_events_task.go:89-117 | The loop finds the first visible events, up to the limit, exactly when nothing is lost. Something is lost when the rows up to the cut hold too few visible events and another lies behind them; then it finds what is visible before the cut. |
| UserEvents.LoopResult | be/tasks/find_user_events_task.go:89-117 | How many rows are scanned, and which events are found: a prefix of the visible ones; with a hard limit of one or more, fewer rows than it and the batch size together. |
| UserEvents.LoopCut | be/tasks/find_user_events_task.go:98-104 | The hard limit cuts off exactly when as many rows as it allows, in whole batches, hold too few visible events; and then just that many rows have been scanned. |
| UserEvents.UserRowsComplete | be/tasks/find_user_events_task.go:48-88 | A request without a start scans all rows of the user and no others, but for rows of the first representable moment with a negative index. |
| UserEvents.WrittenRowsComplete | be/tasks/find_user_events_task.go:48-88 | Of events that tasks have written, over every run, it scans exactly those of the user. |
| UserEvents.PageAtKey | be/tasks/find_user_events_task.go:48-167 | For any key of the user: the page starts at the place of the key among the rows, and is the slice of visible events from there, with the key of the one after it, exactly when nothing is lost behind the cut; otherwise it is shorter and has no next key. The previous key names the row just before, visible or not. |
| UserEvents.PageAtVisible | be/tasks/find_user_events_task.go:48-167 | So the page that starts at the m-th visible event is right exactly when, of the rows from that event on, nothing is lost. |
| UserEvents.FollowNext | be/tasks/find_user_events_task.go:48-167 | Following the tokens ends, and gives a beginning of the list of visible events; all of it exactly when none of the requests at visible events 0, max, 2 max and so on loses one. |
| UserEvents.FollowsAll | be/tasks/find_user_events_task.go:89-104 | All of it, then, when the rows are fewer than the hard limit, or all visible. |
| UserEvents.StuckAtZero | be/tasks/find_user_events_task.go:66-104 | With a page size of zero every page is empty, and its token stays that of the first visible event, or is missing when nothing is visible up to the cut. |
| UserEvents.BackFromPrev | be/tasks/find_user_events_task.go:119-167 | Asking the other way from the previous key gives the visible events just before the page, nearest first, exactly when nothing is lost that way; also when the row that the key names is not visible. |
| UserEvents.CutLosesEvents | be/tasks/find_user_events_task.go:98-104 | A table on which the hard limit makes an event invisible to paging. |
| UserEvents.FilterUserEvents | be/tasks/find_user_events_task.go:185-222 | Keeps, in order, an event exactly when the subject may see it: any with the capability for all; one of their own with that for themselves; otherwise an outgoing vote, an outgoing comment or an upload exactly with the capability for public events and that for votes, for comments or for pics; an incoming one never. |
| UserEvents.Resume | be/tasks/find_user_events_task.go:105-112 | Moving the bound behind, or onto, a row of the scan leaves exactly the rows after it, or from it on. |
| CommentTree.BuildCommentTree | be/tasks/lookup_pic_task.go:121-150 | One pass over the rows in any order, keeping orphans aside, builds the node of every comment with the replies in input order; the panic comes exactly when a parent is missing. |
| CommentTree.AddComment | be/tasks/lookup_pic_task.go:130-145 | One round keeps this for the rows so far. |
| CommentTree.HeapIsTree | be/tasks/lookup_pic_task.go:121-150 | On a forest the nodes reachable from the root are the tree that the rows describe. |
| CommentTree.ChildrenAreKids | be/tasks/lookup_pic_task.go:121-150 | The children of a node are exactly the rows that name it, in input order. |
| CommentTree.ListComplete | be/handlers/lookup_pic_details_handler.go:31-50 | On a forest the flattened list without the fake root holds each comment once and nothing else. |
| CommentTree.Flatten | be/handlers/lookup_pic_details_handler.go:45-50 | The recursion appends the tree in post-order. |
| CommentTree.CommentList | be/handlers/lookup_pic_details_handler.go:31-34 | From the rows to the list that is sent. |
| Viewer.RoundTrip | fe/handlers/viewer.go:146-165 | The single pass over that list, with a map from ids to children found so far, gives the same tree back, children in the same order. |
| Viewer.PlaceTree | fe/handlers/viewer.go:148-164 | Placing the list of a tree adds its view to the children of its parent and leaves the children of all others alone. |
| Viewer.Rebuild | fe/handlers/viewer.go:146-165 | The loop over the map is the function of the theorems. |
| Viewer.ApiReads | be/handlers/apiconvert.go:111-127 | Both ids of a comment are read back from the wire; text and time arrive as stored. |
| Viewer.Show | fe/handlers/viewer.go:146-165 | Building, flattening and rebuilding together show the tree that the rows describe. |
| PageOrder.Timesort | fe/handlers/viewer.go:166-185 | Sorting the children and going down into each is the recursive order of the theorems: earlier comments first, and of two of one time the lesser id. |
| PageOrder.ShowSorted | fe/handlers/viewer.go:146-185 | From the rows to the sorted page. |
| PageOrder.SamePage | fe/handlers/viewer.go:146-185 | Two lookups that return the same rows in different orders show the same page. |
| PageOrder.SortedInOrder | fe/handlers/viewer.go:171-180 | Where any two can be told apart by time and id, sorting puts them in order. |
| Comments.AddPicComment | be/tasks/add_pic_comment_task.go:76-229 | Succeeds exactly when the text is acceptable, the pic is there and not hard-deleted, the parent is on it, the options do not forbid the reply, an id is left, and all who are to be told can be; each refusal has exactly its cause. Inserts a comment with an id never used before, under a parent of the same pic or none, and tells exactly the users to be told. |
| Comments.RunKeeps | be/tasks/add_pic_comment_task.go:92-146 | Over every run of commenting and purging, each parent is an older comment of the same pic that is still there. |
| Comments.RowsAreForest | be/tasks/lookup_pic_task.go:121-150 | So the rows of any pic are a forest. |
| Comments.EveryLookupComplete | be/handlers/lookup_pic_details_handler.go:31-50 | Over every run and in any order of rows, the list sent for a pic holds each of its comments once. |
| Comments.EveryPageSame | fe/handlers/viewer.go:146-185 | Over every run, the page of a pic does not depend on the order of its rows. |
| Indexes.NextIndex | be/tasks/add_pic_comment_task.go:242-265 | In a group numbered without gaps the loop finds the size of the group, or overflow when all numbers are used. |
| Indexes.NextKeepsDense | be/tasks/add_pic_comment_task.go:242-265 | A row with that number is new and keeps every group without gaps. |
| Notifications.Notify | be/tasks/add_pic_comment_task.go:148-229 | A named author has one event more, of the vote, comment or upload that went out; the uploaders voted on, the author of the comment replied to, or the uploaders of the pic commented on have one more, of what came in; nobody else has, no anonymous user, and none has two. Nobody is told exactly when somebody has no number left. |
| Notifications.ToldIsByKind | be/tasks/add_pic_vote.go:141-183 | Who hears of a vote, a comment and an upload, and with which note, kind by kind. |
| Notifications.QueuedIsNotified | be/tasks/add_pic_comment_task.go:220-229 | Inserting the queued events adds exactly them and keeps all events numbered without gaps. |
| Notifications.NotifiedKeepsDense | be/tasks/add_pic_comment_task.go:242-265 | Whoever is told, all events stay numbered without gaps. |
| Notifications.RunKeeps | be/tasks/upsert_pic_task.go:591-617 | Over every run of comments, votes and uploads in any order, the events of each user and moment are numbered without gaps, and no anonymous user has any. |
| Notifications.OneForEach | be/tasks/add_pic_vote.go:185-195 | Over every such run there are as many events as users that had to be told: none overwrites another, none is lost. |
| Notifications.WrittenStays | be/tasks/add_pic_vote.go:185-195 | Over every such run, an event once written stays as it is. |
| Notifications.EventOrigin | be/tasks/add_pic_vote.go:141-183 | Over every such run, each event goes back to a step that had to tell its user at its time, and is the note for the author or that for the others. |
| Votes.CastVote | be/tasks/add_pic_vote.go:79-130 | Refuses a second vote of a named user, numbers the anonymous ones, inserts the vote and counts it, keeping counters equal to stored votes. |
| Votes.AddPicVote | be/tasks/add_pic_vote.go:32-201 | The whole task on a pic. Succeeds exactly when there is a vote, the pic is there and not hard-deleted, a named user has not voted, a number is left for an anonymous one, and, if a counter changes, all who are to be told can be; each refusal has exactly its cause. Then the vote is cast, and told of if a counter changed. |
| Votes.AddCommentVote | be/tasks/add_pic_comment_vote_task.go:30-148 | The task on a comment of a pic, likewise; the comment must be there, and nobody is told. |
| Votes.RunKeeps | be/tasks/add_pic_comment_vote_task.go:92-142 | Over every run of creating, voting and purging, `VoteUp` and `VoteDown` are the numbers of stored votes of each kind, also where votes outlive what was voted on. |
| Votes.VotesNumbered | be/tasks/add_pic_vote.go:88-102 | A named user has one vote at most, with index 0; anonymous votes are numbered 0 to k-1. |
| Votes.VotedIsSound | be/tasks/add_pic_vote.go:105-130 | One vote keeps counters and numbering. |
| Tags.UpsertTags | be/tasks/add_pic_tags_task.go:98-129 | Maps the names as given to tags of those names, all attached; attaches each once, counts it, makes new tags only for names no tag has. Fails exactly for a bad name, for two of one unique form, when more names have no tag than ids are left, or for names that can be confused, in that order. The branches for a missing tag and for tags of equal names are not reached. |
| Tags.AttachedKeepsCounts | be/tasks/add_pic_tags_task.go:228-279 | Attaching keeps usage counts equal to the pic tags, at least one, with nothing dangling. |
| Tags.CleanTagNames | be/tasks/add_pic_tags_task.go:281-318 | Cleaned names with their unique forms, all different; otherwise the error. |
| Tags.HasDuplicate | be/tasks/add_pic_tags_task.go:308-318 | Finds out whether two names have one unique form. |
| Tags.FindExisting | be/tasks/add_pic_tags_task.go:207-226 | The tags that have one of the names, and the names that no tag has. |
| Tags.NameIds | be/tasks/add_pic_tags_task.go:147-158 | The last loop of `buildTagIdList`: the answer, or the false duplicate exactly for names that can be confused. |
| Tags.NamesCovered | be/tasks/add_pic_tags_task.go:131-150 | Every given name has its tag among those attached, updated and made. |
| Tags.CleanNamesApart | be/tasks/add_pic_tags_task.go:147-158 | Names that need no cleaning are never confused. |
| Tags.GoodNamesRefused | be/tasks/add_pic_tags_task.go:147-158 | Two acceptable, different names that are. |
| TagRuns.PurgeTags | be/tasks/purge_pic_task.go:73-115 | Deletes the pic tags of a pic, and takes one use off each of its tags, or deletes the tag with its last use; every tag is found. |
| TagRuns.DetachedKeepsCounts | be/tasks/purge_pic_task.go:73-115 | This keeps counts right, none at zero, no pic tag dangling. |
| TagRuns.RunKeeps | be/tasks/purge_pic_task.go:73-115 | Over every run of tagging and purging: counts are right and at least one, nothing dangles, unique names stay unique. |
| TagRuns.TagThenPurge | be/tasks/purge_pic_task.go:73-115 | Tagging a pic without tags and purging it leaves the tags as they were. |
| Pics.Job.SoftDelete | be/tasks/soft_delete_pic_task.go:33-93 | Marks a pic that is there and not hard-deleted; the time it was first marked is kept. |
| Pics.Job.HardDelete | be/tasks/hard_delete_pic_task.go:26-81 | Hides a pic and takes its thumbnails. |
| Pics.Job.UploadPic | be/tasks/upsert_pic_task.go:223-389 | A new pic under the next id, a restored one, or a merge, with an event for a named user who adds a source. The first two get the files of AddFiles; a new one has no others, and neither views nor votes. Succeeds exactly when the file is not that of a pic deleted for good, an id is left for a new one, no extension key is there already, and the event has a number; each refusal has exactly its cause. Lookup by hash never dangles and no file index is used twice. |
| Pics.AddFiles | be/tasks/upsert_pic_task.go:277-385 | Behind the files there are: the derived file of a video with its own format under the least free index, then the thumbnail with its own under the least that is free then; nothing else changes. Fails exactly when an index is used twice already. |
| Pics.MergePic | be/tasks/upsert_pic_task.go:567-633 | A temporary deletion is lifted, a source that adds nothing is not added, a named user who adds one is told, extension keys may not collide. |
| Pics.NextPicFileIndex | be/tasks/upsert_pic_task.go:532-548 | The least free index; the panic exactly when an index is used twice. |
| Pics.RunKeeps | be/tasks/hard_delete_pic_task.go:57-77 | Over every run: a deletion has its time, a pic is hard-deleted exactly when it has no thumbnails, files differ in index, sources in address and user, and each pic is found by its hash and no other. |
| Pics.DeletedForGood | be/tasks/upsert_pic_task.go:227-233 | A pic hard-deleted and not temporarily keeps its row unchanged through every run without a purge of it. |
| Pics.UploadRestores | be/tasks/upsert_pic_task.go:569-575 | Uploading again brings back under its old id what was deleted temporarily, with a thumbnail and its place in listings; what was marked for good stays marked. |
| Pics.FirstUpload | be/tasks/upsert_pic_task.go:244-385 | A new pic has its derived file, if any, under index 0 and its thumbnail under the next, the source and data of the upload, its time, and nothing else. |
| Pics.UploadFiles | be/tasks/upsert_pic_task.go:227-243 | A restored pic keeps its derived files and gets the new ones behind them; any other keeps its files. |
| Pics.DeleteThenRestore | be/tasks/upsert_pic_task.go:227-244 | Deleting softly, then hard, then uploading again gives the row as it was, with the files of the upload behind the derived ones, and but for its sources and data. |
| CapSet.CapSet.Add | be/schema/user.go:118-133 | Adds to the set meant, keeping the list sorted and without duplicates. |
| CapSet.CapSet.Has | be/schema/user.go:105-116 | Membership. |
| CapSet.CapSet.Size | be/schema/user.go:135-137 | The size of the set. |
| CapSet.CapSet.Slice | be/schema/user.go:139-152 | Each capability once; the loop over the word ends. |
| CapSet.CapIntersect | be/schema/user.go:158-180 | Exactly intersection and both differences, each again sorted and without duplicates. |
| CapSet.Merge | be/schema/user.go:162-179 | The merge of two sorted lists. |
| CapSet.VerifyCapSubset | be/schema/user.go:78-88 | Succeeds exactly when what is wanted is contained in what is had; otherwise names what is missing. |
| CapSet.CapSetOf | be/schema/user.go:97-103 | The set of a list. |
| Bits.CountIsSize | be/schema/user.go:135-137 | The bit count of a word is the size of the set it stands for. |
| Bits.OnesSet | be/schema/user.go:118-120 | Setting or clearing a bit adds or removes its position. |
| Bits.OnesAnd | be/schema/user.go:158-161 | Word operations are set operations. |
| Bits.MaskTest | be/schema/user.go:105-107 | The test with a mask is membership. |
| Bits.TrailingZeros | be/schema/user.go:142-149 | The lowest position that is set. |
| Capabilities.DiffCaps | fe/handlers/user.go:226-283 | Succeeds exactly when both forms name the same capabilities once each, and gives what was ticked and what was unticked. |
| Capabilities.UpdateCaps | be/tasks/update_user_task.go:55-104 | Old and set without cleared; reported as changed exactly when the set changed, or the old list had a duplicate. |
| Capabilities.SubmitForm | be/tasks/update_user_task.go:55-118 | The form sent through the task succeeds exactly when both forms name the same capabilities once each, and those ticked and those unticked are known. Then on the form exactly what is ticked is set, elsewhere nothing changed, and there is a write exactly when the form changed. |
| Capabilities.ComparesSets | be/tasks/update_user_task.go:92-103 | Comparing sorted lists tells whether the set is the same, for a list without duplicates. |
| Auth.AuthedJob | be/tasks/auth.go:27-97 | On every path, whichever calls of the database fail and whoever interferes, one job more is open when it succeeds and none when it fails; the user returned is as stored and not stale. Undisturbed it ends in two rounds with three jobs at most. |
| Auth.ValidateAndUpdate | be/tasks/auth.go:99-152 | Of the user and the token, each time that is known and more than 24 hours old is set to now, and then the row is marked as modified; all else stays, other tokens included; errors for a missing user or token. |
| Auth.StaleIsDayOld | be/tasks/auth.go:130-146 | A time is old when the same time of the next day is over, to the nanosecond. |
| Auth.RefreshedIsFresh | be/tasks/auth.go:99-152 | Right after a refresh, at the same time, no other is due. |
| UserTokens.AuthUser | be/tasks/auth_user_task.go:101-164 | With a password, what is kept and dropped is the tokens of the user and one new token under the next id; with a token, the tokens of the user with the time of that one set. Ten at most are kept, latest first, the one signed in with among them; some are dropped only when there are more than ten, and were seen no later than any kept. Fails when ten other tokens of the user were seen after now, and only if ten were not seen before. |
| UserTokens.UnauthUser | be/tasks/unauth_user_task.go:50-65 | One token goes, the others stay in order. |
| UserTokens.LessOrders | be/tasks/auth_user_task.go:180-193 | `Less` is a strict weak order, in which a token without a time counts as seen last. |
| UserTokens.LessIsEarlier | be/tasks/auth_user_task.go:180-193 | It compares instants, a missing time being the last. |
| UserTokens.RunKeeps | be/tasks/auth_user_task.go:101-164 | Over every run: ten tokens at most, ids all different and not above the last one given. |
| Hash.CountBitsIsCount | be/imaging/dct_hash.go:16-21 | The parallel bit count is the number of bits, for every 64-bit word. |
| Hash.CountLoop | be/tasks/find_similar_pics_task.go:80-90 | The loop over 64 bits counts the places in which two hashes differ. |
| Hash.QuickDistance | be/imaging/dct_hash.go:16-21 | The parallel count of the difference would give the same. |
| Hash.Phash0 | be/imaging/dct_hash.go:40-62 | A bit for each input above the median. |
| Hash.HashHalfFull | be/imaging/dct_hash.go:40-62 | 32 bits at most, and 32 exactly when the two middle inputs differ, so whenever all differ. |
| SimilarPics.FindSimilar | be/tasks/find_similar_pics_task.go:43-105 | Scans the idents from the perceptual hashes on, digests included, and answers with the ids of other pics of which an ident differs from the hash of the pic in ten places at most; a missing pic or hash is refused. |
| SimilarPics.WordReads | be/imaging/dct_hash.go:33-34 | A hash is read back from the bytes it is stored as. |
| SimilarPics.AnswerMembers | be/tasks/find_similar_pics_task.go:71-96 | The answer holds the pics that are alike, and those struck by a digest, and no others. |
| SimilarPics.AnswerRight | be/tasks/find_similar_pics_task.go:71-96 | It is the set of pics that are alike exactly when every pic struck by a digest is alike too. |
| SimilarPics.AnswerRepeats | be/tasks/upsert_pic_task.go:665-708 | With one ident of each kind for a pic, as uploads write them, a pic is listed twice exactly when it is alike and struck. |
| SimilarPics.DigestStrikes | be/schema/pixur.proto:112-123 | Two pics whose hashes differ in all 64 places, of which one is the answer for the other because of its digest. |
| Hash.Transpose | be/imaging/dct_hash.go:117-123 | Swapping in place mirrors the matrix. |

## Left out

- gRPC and HTTP handlers, cookies, templates, generated protobuf code.
- SQL drivers and adapters beyond the text of scans. Transactions are serializable, and a row lock is held to the end.
- Image and video work, downloads, temporary files and their cleanup. Of an upload the rows are modelled, when no file
  operation fails.
- bcrypt, the token coder, retry backoff, Wilson scores, configuration merging, rate limits.
- Authorisation before each task, except that of user events and the capability subset test itself.
- Field values that do not matter to the properties: texts of comments beyond cleaning, extension data except on upload,
  created and modified times except where a task decides by them.
- Text rules. Cleaning a name and taking its unique form are functions that a theorem takes as given; where it matters
  they are idempotent.
- Strings are sequences of chars, one for a byte. `bytes.ToLower` is modelled on ASCII; on other bytes it can change the
  length of its argument, which can only turn one decoding error into another.
- Counters of uses, votes and views are unbounded integers here; in the source they are 64-bit.
- `sort.Sort`, `sort.Slice`, `sort.Float64s` and `sort.Search` stand for their documented results: a sorted permutation,
  and the first entry that is not less.
- Words of bits are natural numbers below 2^64, and the operations on them are defined bit by bit.
- Floating point: `phash0` is modelled over real numbers, where the median of two different numbers lies between them.
- CompositeIds.PicBaseDir: a path is the list of its components, because no component can be "", "." or "..".
- Pics.NextPicFileIndex: there are at most 2^63-1 files, as there are in memory, so the search for an index ends.
- UserEvents.FindUserEventsTask.Run: the configuration has a maximum, which the code dereferences without a test.
- IndexPager.FollowNext: the table does not change between pages, and ids are those the allocator gives out.
- UserEvents.FollowNext: the table does not change between pages.
- UserEvents.PageAtKey: leaves out keys of the first representable moment with a negative index, which no event has.
- Rolling back: a task that fails after it has written leaves its job as it is at that point; the tables are those from
  before, because the transaction is rolled back.
- Votes.RunKeeps: ids are not given out twice; IdProtocol.NoIdTwice shows that they are not.
- ScanStatement.ScanStmt.BuildScan: what is read of the text supposes names without the quote character in them, on which
  `Quote` panics otherwise, and one of the lock clauses of the adapters.
- UserTokens.AuthUser: the token ids of a user differ and the next one is new; UserTokens.RunKeeps shows that they are.
- UserTokens.RunKeeps: after 2^63 sign-ins of one user the token id wraps; the theorem is about fewer.
- Auth.ValidateAndUpdate: times are in the range of protobuf timestamps, so converting them does not fail.
- IdDeadlock.CycleIsEmbrace: of what the database locks, only the row of the sequence is modelled.
- Auth.AuthedJob: an attempt to roll back ends a job even if it reports an error.

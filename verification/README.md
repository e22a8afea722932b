# A verified model of the repository's stateful algorithms

The repository holds a news server and client, an intercepting proxy, a status board, a disk watcher and a link
board. Between them they contain a dozen small algorithms whose correctness is a matter of whole runs: what a
server restart may not lose, what a cache may not mix, what an eviction cursor may not skip. This project models
those algorithms in Dafny and proves what their code and its comments promise.

Code that changes things step by step is a `method` or a `class` here, with its loops, and is proved equal to a
function of the inputs or of the old state. What is then promised is proved about that function, over every input,
every run or every reachable state. Where a promise does not hold for every input, the lemma says exactly when it
holds.

| file | what it models |
|---|---|
| `Common.dfy`, `Text.dfy` | options, distinct sequences; the string functions of Go's library that the code relies on |
| `Forest.dfy`, `SharedNodes.dfy`, `Threading.dfy` | lists of entries with a parent link, their preorder listing; the same when entries share nodes; linked nodes on the heap |
| `NntpThreads.dfy`, `Comments.dfy` | the thread tree of the news client; the comment page of the link board |
| `NntpFraming.dfy` | dot-stuffed blocks between news client and server, and the client's posting |
| `Spool.dfy`, `NntpStore.dfy` | the file tree of the news server; article files, groups, posts and reading the spool back |
| `NntpPosts.dfy` | what a post leaves in the store, said without following its loop |
| `NntpRestarts.dfy`, `NntpServer.dfy` | runs of posts and restarts; the mutable store and session objects |
| `NntpCursor.dfy` | the session's article cursor: NEXT, LAST, GROUP, LISTGROUP, interleaved with posts |
| `FlowEviction.dfy` | the proxy's eviction cursor against a search for the minimum |
| `RateLimiter.dfy` | the sliding-window limiter with its in-place filter, against one that remembers every grant |
| `Forecast.dfy`, `Avatar.dfy` | the least-squares disk forecast; centre-crop bilinear resampling |
| `DiskAlerts.dfy`, `ExploreGraph.dfy` | alerts with hysteresis; the explore mode of the force graph |
| `Fleet.dfy`, `FleetCache.dfy` | the fleet overview; the single-flight cache as a machine of any number of goroutines |
| `Tags.dfy`, `RssImport.dfy`, `InviteTree.dfy` | tag names and authority; feed import; the invite forest |
| `StripHtml.dfy`, `StripDocument.dfy` | HTML to text: its passes; what they make of a whole document |

Where the code and its own description differ, the model follows the code:

* A double click in the force graph is said to collapse everything reachable only through the node. It does so,
  whatever is opened, exactly when the node is not external or each of its neighbours that is not external either
  has another external node leading straight to it (`CompleteIff`); a single host behind the internet stays
  (`OneHostStays`).
* A reply to a reply that is fetched before its parent shows too small a depth; `GetPostComments` orders rows by
  time only (`DepthsRightIff`, with three rows in `LateParentWrong`).
* LISTGROUP on an empty group keeps the cursor of the group before it (`DoKeepsOnArticle`). Once articles are posted
  there NEXT passes over those up to the kept number, exactly when that number has been reached (`StaleCursor`).
* The news client's `flatten` need not return when articles share a message-id. It returns exactly when no id that
  a root leads to is its own descendant (`ReturnsIff`): two articles under one id, the second a reply to it, make it
  recurse for ever (`DuplicateIDsDiverge`), two such roots do not (`DuplicateRootsReturn`).
* A post with an empty Message-ID line is filed under a generated id that its headers do not show (`EmptyIDLine`); the
  next restart forgets the id (`GivenIDForgotten`). A post to a group whose name is no file name, such as a/b, goes to
  a nested directory or to none; the next restart forgets the group, and finds a group a without articles
  (`StrayForgotten`, `SlashLost`). Restarts go unnoticed exactly as long as none follows a post of either kind
  (`RestartsInvisibleIff`).
* The proxy's comment on its cursor takes insertions to be in id order. They need not be: the evicted flow is the
  oldest exactly when the live ids lie on one side of the cursor (`VictimIsLeastIff`), which overtaking by at most
  `MaxFlows` larger ids guarantees (`CursorIsMinScan`) and overtaking by one more does not (`OvertakenTooOften`).
* `CPUBusyAvg` is called the mean across reachable VMs. It is the mean over those that report a CPU, which agrees
  exactly when all of them do or none is busy (`MeanReachableIff`; `HalfBusy` has two VMs for which it does not).
* `pollFeed` does not look at the error of the ledger insert, `createPostFull` returns an error after its commit when
  the post cannot be read back, and `HasRSSItem` reads a failed query as no. Posts and rows stay in step exactly when
  none of the three leaves a post without a row of its own (`PollExactIff`, `PollsExactIff`); such a post is made again
  by the next poll that gets to its item (`OrphanTwice`, with the single cases in `NoRowTwice` and `LookupTwice`).

Modelling assumptions. Go's floats are reals, its integers are unbounded, its strings are sequences of characters
with ASCII case folding, and a file name has at most 255 of them. Map iteration and directory order are arbitrary.
Clocks, generated ids, what a query returns, what a scrape finds and which database queries fail are parameters.

## Model

| member | source | states |
|---|---|---|
| Forest.ListingCorrect | ops/pkgs/nntpc/nntpc.go:325-332 | for any parent links, cyclic ones too, the depth-first listing is the strictly increasing enumeration of exactly the paths from the given roots |
| Forest.PreorderUnique | ops/pkgs/nntpc/nntpc.go:325-332 | such an enumeration is unique, so preorder and sibling order leave one result |
| Forest.PreorderContiguous | ops/pkgs/nntpc/nntpc.go:325-332 | between an entry and one of its descendants only descendants are listed: subtrees are contiguous |
| Forest.RootedIffChainEnds | ops/pkgs/nntpc/nntpc.go:311-321 | an entry is below a root exactly when climbing its parents comes to an end |
| Threading.AddChild | ops/pkgs/nntpc/nntpc.go:316-318 | appending to the parent's children keeps every node's list equal to its replies so far, in list order |
| NntpThreads.App.MakeNodes | ops/pkgs/nntpc/nntpc.go:299-304 | one fresh node for each article; the map has the node of the last article under each message-id |
| NntpThreads.App.LinkNodes | ops/pkgs/nntpc/nntpc.go:306-321 | afterwards every node lists exactly the nodes of its replies, in list order, and the roots are those of the articles without a fetched parent, shared ids or not |
| NntpThreads.App.Flatten | ops/pkgs/nntpc/nntpc.go:325-331 | terminates if no chain of calls is longer than the list; appends the node of every way down, depth first, and leaves each node with the depth of the last way to it |
| NntpThreads.App.BuildTree | ops/pkgs/nntpc/nntpc.go:298-333 | for every list on which `flatten` returns, `flatThreads` lists all ways down from the roots; with distinct message-ids these are the threads, each depth the length of the chain of parents |
| NntpThreads.CallsCorrect | ops/pkgs/nntpc/nntpc.go:298-333 | then what is listed is the increasing enumeration of exactly the ways down from the roots, shared nodes once for each way |
| SharedNodes.WaysCorrect | ops/pkgs/nntpc/nntpc.go:325-332 | the same for any links and any sharing of nodes in which no way is longer than the list |
| SharedNodes.OwnNodes | ops/pkgs/nntpc/nntpc.go:325-332 | if no two entries share a node, these are the paths of the forest |
| SharedNodes.DepthMeaning | ops/pkgs/nntpc/nntpc.go:327 | a node that is listed more than once keeps the depth of its last entry |
| NntpThreads.SharerMeaning | ops/pkgs/nntpc/nntpc.go:302-304 | articles under one message-id share the node of the last of them |
| NntpThreads.LastRefMeaning | ops/pkgs/nntpc/nntpc.go:308-312 | a References header has a last id exactly when it is not blank: the one word with nothing but space after it and space or nothing before it |
| NntpThreads.LinkMeaning | ops/pkgs/nntpc/nntpc.go:306-321 | the parent is the last article with the id that the References header ends with; an article is a root when the header is blank or nobody has that id |
| NntpThreads.ThreadsCorrect | ops/pkgs/nntpc/nntpc.go:298-333 | the threads are the increasing enumeration of all paths from roots: preorder, each once |
| NntpThreads.InThreadsIff | ops/pkgs/nntpc/nntpc.go:298-333 | an article is listed exactly when its chain of last references ends at one without a known parent |
| NntpThreads.ThreadsComplete | ops/pkgs/nntpc/nntpc.go:298-333 | never more entries than articles; all of them exactly when no chain runs in a circle |
| NntpThreads.OrderedThreadsComplete | ops/pkgs/nntpc/nntpc.go:298-333 | all articles are listed when every parent comes before its replies |
| NntpThreads.ReturnsIff | ops/pkgs/nntpc/nntpc.go:324-332 | the calls of `flatten` are bounded exactly when no id reachable from a root is its own descendant, which is when no chain of calls meets an id twice; they then nest no deeper than there are articles |
| NntpThreads.DistinctIDsReturn | ops/pkgs/nntpc/nntpc.go:324-332 | with distinct message-ids `flatten` always returns |
| NntpThreads.DuplicateIDsDiverge | ops/pkgs/nntpc/nntpc.go:298-333 | on two articles under one id, the second a reply to it, it does not return |
| NntpThreads.DuplicateRootsReturn | ops/pkgs/nntpc/nntpc.go:298-333 | on two articles under one id without references it does |
| Comments.GetPostComments | tools/makhor/pkg/db/comments.go:243-267 | the result lists the comments of the spec listing, with the depths the code sets |
| Comments.FlattenComments | tools/makhor/pkg/db/comments.go:270-279 | returns the subtrees of its argument in preorder |
| Comments.LinkMeaning | tools/makhor/pkg/db/comments.go:247-260 | a comment without a parent starts a thread, a late one if it is blurred; another hangs below the row with its parent's id and is lost when there is none |
| Comments.ListingMeaning | tools/makhor/pkg/db/comments.go:243-279 | first the threads of unblurred roots, then those of blurred ones, each in preorder with row order among siblings |
| Comments.ListedIff | tools/makhor/pkg/db/comments.go:255-260 | a comment is listed exactly when its parent chain stays in the fetched rows and ends |
| Comments.ListedOnce | tools/makhor/pkg/db/comments.go:263-266 | no comment is listed twice |
| Comments.DepthsRightIff | tools/makhor/pkg/db/comments.go:247-261 | every listed depth is the chain length exactly when replies to replies come after their parents |
| Comments.LateParentWrong | tools/makhor/pkg/db/comments.go:247-261 | three rows, a reply to a reply before its parent: it shows depth 1 where its chain has length 2 |
| Comments.OrderedDepthsRight | tools/makhor/pkg/db/comments.go:247-261 | in particular when every parent comes before its replies |
| NntpFraming.Conn.WriteDotBlock | ops/pkgs/nntpd/nntpd.go:266-275 | writes the stuffed lines and the closing dot |
| NntpFraming.Conn.ReadDotBlock | ops/pkgs/nntpd/nntpd.go:277-293 | consumes one block, un-stuffed, and leaves the rest; fails exactly when the input ends first |
| NntpFraming.Conn.SendArticle | ops/pkgs/nntpc/nntpc.go:702-718 | writes the non-blank header lines unstuffed, a blank line and the stuffed body |
| NntpFraming.ReadWritten | ops/pkgs/nntpc/nntpc.go:257-274 | for all lines without line feed and any following bytes, reading a written block gives each line without trailing carriage returns, and the rest untouched |
| NntpFraming.RoundTripIff | ops/pkgs/nntpc/nntpc.go:257-274 | the same lines come back exactly when none ends in a carriage return |
| NntpFraming.PostDeliveredIff | ops/pkgs/nntpc/nntpc.go:703-718 | the server gets exactly the non-blank header lines and the body lines the client sent, for any texts, exactly when every header line is intact and no body line ends in a carriage return |
| NntpFraming.LoneDotStops | ops/pkgs/nntpc/nntpc.go:704-708 | the first unstuffed header line that is a lone dot ends the article: exactly the lines before it arrive and exactly the bytes after it stay unread |
| NntpFraming.ComposedDelivered | ops/pkgs/nntpc/nntpc.go:673-718 | from the edited text: header lines and body lines arrive as composed |
| NntpFraming.ReadLinesClean | ops/pkgs/nntpd/nntpd.go:277-293 | whatever bytes come in, lines that are read hold no line feed and end in no carriage return |
| NntpFraming.SplitLines | ops/pkgs/nntpd/nntpd.go:596-604 | splits at the first empty line |
| Spool.WrittenFlat | ops/pkgs/nntpd/nntpd.go:186-206 | for a group whose name is a file name the article goes to the file loadSpool will look for, and nothing else in the spool changes |
| Spool.WrittenNested | ops/pkgs/nntpd/nntpd.go:186-206 | for a group x/y it goes one level deeper, and all that is found of it is a directory x without files |
| Spool.WrittenNamed | ops/pkgs/nntpd/nntpd.go:186-191 | whatever the group is called, no directory gets a name that is none |
| Spool.PathMeaning | ops/pkgs/nntpd/nntpd.go:186-188 | the directory of a group: below the spool for a name, the spool itself or the directory above it for dots, part by part for a name with slashes |
| Spool.WrittenHalf | ops/pkgs/nntpd/nntpd.go:186-191 | for a group x/y whose second part can be no name nothing is written, but a directory x is left |
| NntpStore.RenderArticle | ops/pkgs/nntpd/nntpd.go:192-203 | builds the file text of an article |
| NntpStore.ParseArticle | ops/pkgs/nntpd/nntpd.go:164-184 | computes the article of a file text |
| NntpStore.ParseRender | ops/pkgs/nntpd/nntpd.go:164-206 | parsing a written article gives it back, for header lines that are not empty and any body: empty, with trailing blank lines, with lines ending in carriage returns |
| NntpStore.HeaderAppend | ops/pkgs/nntpd/nntpd.go:47-55 | appending a header line changes the value of a header only when it was absent |
| NntpStore.CompletedIDIff | ops/pkgs/nntpd/nntpd.go:215-221 | the stored message-id agrees with the headers exactly when no empty Message-ID header precedes the generated one |
| NntpStore.ReadFromBlock | ops/pkgs/nntpd/nntpd.go:588-604 | whatever bytes a client sends, the article made of what is read of them meets what posting asks of it |
| NntpRestarts.AfterMirror | ops/pkgs/nntpd/nntpd.go:101-141 | after a restart the spool holds the files of exactly the articles in memory, and the known ids are theirs; after a post exactly when all its groups have file names |
| NntpStore.LoadGroup | ops/pkgs/nntpd/nntpd.go:117-137 | reading the files of a group in any order gives the group back: numbers, low, high, and each article with the id its headers carry |
| NntpStore.Reload | ops/pkgs/nntpd/nntpd.go:101-141 | reloading a mirrored spool rebuilds all groups, each article with the id its headers carry, and knows exactly those ids |
| NntpRestarts.RestartKeepsIff | ops/pkgs/nntpd/nntpd.go:101-141 | a restart changes no group, file or known id exactly when every article in memory has the id its headers carry |
| NntpRestarts.RestartsInvisibleIff | ops/pkgs/nntpd/nntpd.go:83-249 | over any run of posts and restarts: without the restarts the outcome is the same exactly when none comes after a filed post with an empty Message-ID line, after a post to a group whose name is no file name, or with an id missing from the headers since before the run |
| NntpRestarts.StrayForgotten | ops/pkgs/nntpd/nntpd.go:101-141 | a group whose name is no file name is there until the next restart and not after it |
| NntpRestarts.SlashLost | ops/pkgs/nntpd/nntpd.go:101-249 | an article for x/y leaves, after a restart, no group x/y but a group x without articles |
| NntpRestarts.GivenIDForgotten | ops/pkgs/nntpd/nntpd.go:128-130 | the id given to such a post is known until the next restart and not after it |
| NntpRestarts.EmptyIDLine | ops/pkgs/nntpd/nntpd.go:215-221 | one group and an empty Message-ID line make such a post |
| NntpStore.FreshBootMirrors | ops/pkgs/nntpd/nntpd.go:95-98 | a server started on an empty spool is in such a state |
| NntpRestarts.RunNoEmptyGroup | ops/pkgs/nntpd/nntpd.go:101-249 | a group without articles comes only from a restart after a post to a group whose name is no file name |
| NntpRestarts.RestartEmptyIff | ops/pkgs/nntpd/nntpd.go:106-138 | whatever is on disk, a restart leaves no group without articles exactly when every directory has a file with a number for its name |
| NntpStore.DeliverGrows | ops/pkgs/nntpd/nntpd.go:232-246 | delivering an article adds one number to its group, above all it has |
| NntpStore.BootNumbered | ops/pkgs/nntpd/nntpd.go:83-141 | in a server booted on any spool every article carries the number it is filed under, none above `high` |
| NntpPosts.FieldMeaning | ops/pkgs/nntpd/nntpd.go:47-51 | a header line has a field when it spells its name, in whatever case, and a colon follows |
| NntpPosts.HeaderMeaning | ops/pkgs/nntpd/nntpd.go:47-55 | the value is what the first such line has after the colon, without the space around it |
| NntpPosts.TargetsIff | ops/pkgs/nntpd/nntpd.go:226-231 | a post goes to exactly the newsgroups that stand, with nothing but space around them, between two commas or ends of the header |
| NntpPosts.TrimsConcat | ops/pkgs/nntpd/nntpd.go:227-231 | in the order of the header, each as often as it is there |
| NntpPosts.TrimsOne | ops/pkgs/nntpd/nntpd.go:228-231 | a blank part names nobody |
| NntpPosts.PostFiled | ops/pkgs/nntpd/nntpd.go:210-249 | what a post leaves in the groups and under the id, as `Store.Post` promises it |
| NntpPosts.BlockMeaning | ops/pkgs/nntpd/nntpd.go:588-604 | the lines up to the first empty one are the headers, those after it the body; without one all are headers |
| NntpServer.Group.Add | ops/pkgs/nntpd/nntpd.go:237-244 | numbers a copy one above `high`, with the id, headers and body of the article, files it beside what was there, keeps `low` |
| NntpServer.Store.DeliverOne | ops/pkgs/nntpd/nntpd.go:232-246 | one turn of the loop changes one group, its file and the id table, and nothing else |
| NntpServer.Store.WriteArticle | ops/pkgs/nntpd/nntpd.go:186-206 | one file of one directory gets the text of the article, unless a directory on the way cannot be made or the file is a directory |
| NntpServer.Store.Post | ops/pkgs/nntpd/nntpd.go:210-249 | refused without a Newsgroups header; otherwise every group gains as many copies as it is named, numbered on from its `high`, each with the posted body and the posted headers completed by a Message-ID and a Date line where there was none; the id finds the last copy; all else stays |
| NntpServer.Store.LoadSpool | ops/pkgs/nntpd/nntpd.go:101-141 | fresh groups for the directories listed, with the ids found; files that cannot be read are passed over, a directory that cannot is an error |
| NntpServer.Store.Open | ops/pkgs/nntpd/nntpd.go:83-99 | fails exactly when a directory cannot be read; otherwise the state of a server booted on the spool, with the numbering that NEXT and LAST rely on |
| NntpServer.Session.CmdGroup | ops/pkgs/nntpd/nntpd.go:391-410 | is the GROUP step of the cursor machine: selects the group and its least article, or 0 in an empty group; errors change nothing |
| NntpServer.Session.CmdListGroup | ops/pkgs/nntpd/nntpd.go:412-439 | is its LISTGROUP step: lists the numbers ascending and moves the cursor only in a group with articles |
| NntpServer.Session.ResolveArticle | ops/pkgs/nntpd/nntpd.go:443-471 | is its step to a number: by id, by number or the current one, with the right error and the cursor moved only by number |
| NntpServer.Session.CmdNextLast | ops/pkgs/nntpd/nntpd.go:511-538 | is its NEXT or LAST step: moves to the next listed number in the direction asked, or replies 421 or 422 and stays |
| NntpServer.Session.CmdPost | ops/pkgs/nntpd/nntpd.go:588-612 | the store changes as by the post of the header lines and body that were read; the session sees more numbers and stays where it is |
| NntpServer.DeliverSeen | ops/pkgs/nntpd/nntpd.go:232-246 | delivering an article is one step of the cursor machine by someone else, with a number above all others |
| NntpServer.PostSeen | ops/pkgs/nntpd/nntpd.go:226-247 | a whole post is a run of such steps, so the laws of sessions hold with real posts in between |
| NntpServer.LastAfterPost | ops/pkgs/nntpd/nntpd.go:511-538 | LAST right after a successful NEXT goes back, whatever is posted to whatever groups in between |
| NntpServer.DenseStays | ops/pkgs/nntpd/nntpd.go:237-241 | a group that was empty numbers its articles from 1 without gaps, whatever is posted |
| NntpCursor.SortedNumbers | ops/pkgs/nntpd/nntpd.go:67-74 | the strictly ascending list of exactly the numbers present |
| NntpCursor.ListsUnique | ops/pkgs/nntpd/nntpd.go:67-74 | there is only one such list |
| NntpCursor.NextMeaning | ops/pkgs/nntpd/nntpd.go:519-536 | from an article, NEXT goes to the least number above it and fails exactly when there is none |
| NntpCursor.LastMeaning | ops/pkgs/nntpd/nntpd.go:519-536 | LAST goes to the greatest number below it and fails exactly when there is none |
| NntpCursor.MoveFromNowhere | ops/pkgs/nntpd/nntpd.go:519-526 | from no article, NEXT goes to the first number and LAST fails |
| NntpCursor.NextVisitsAll | ops/pkgs/nntpd/nntpd.go:511-538 | with posts interleaved anywhere, repeated NEXT visits each number above the start up to the cursor once and in order, and once it fails it has visited all the group then has |
| NntpCursor.LastUndoesNext | ops/pkgs/nntpd/nntpd.go:511-538 | LAST right after a successful NEXT restores the cursor, whatever was posted between |
| NntpCursor.DoKeepsOnArticle | ops/pkgs/nntpd/nntpd.go:391-439 | a command keeps the cursor on an existing article exactly when it does not select an empty group |
| NntpCursor.SessionOnArticle | ops/pkgs/nntpd/nntpd.go:391-538 | in a server without empty groups the cursor names an existing article throughout every session |
| NntpCursor.StaleCursor | ops/pkgs/nntpd/nntpd.go:391-439 | after LISTGROUP on an empty group and k articles posted there, the kept number names one exactly when it is from 1 to k, and then NEXT goes on from it; otherwise, and always after GROUP, NEXT starts at the first |
| FlowEviction.Listener.EvictOldFlows | users/hanemile/projects/go/hitm/main.go:225-258 | terminates; deletes exactly one flow when over the limit, none otherwise; which flow, the new cursor, the turns of the loop and whether the full scan ran |
| FlowEviction.Listener.InsertFlow | users/hanemile/projects/go/hitm/main.go:411-422 | an insertion with its eviction is one step of the run model, loop turns and full scans included, and other flows keep their contents |
| FlowEviction.VictimMeaning | users/hanemile/projects/go/hitm/main.go:234-256 | what is evicted is the first live id from the cursor on, and the oldest when all are behind it |
| FlowEviction.NeverTooMany | users/hanemile/projects/go/hitm/main.go:1464-1476 | for every interleaving of draws and insertions the map never holds more than the limit |
| FlowEviction.VictimIsLeastIff | users/hanemile/projects/go/hitm/main.go:229-232 | the cursor picks the oldest live flow exactly when the live ids all lie on one side of it |
| FlowEviction.CursorIsMinScan | users/hanemile/projects/go/hitm/main.go:225-258 | if at most the limit of larger ids overtake any id, what stays are the largest ids inserted, the full scan never runs and all loop turns of the run are at most the ids handed out |
| FlowEviction.BoundedVictim | users/hanemile/projects/go/hitm/main.go:229-238 | in such a run every evicted flow is the minimum live id |
| FlowEviction.OvertakenTooOften | users/hanemile/projects/go/hitm/main.go:229-238 | the bound is sharp: overtaken by one more, an id is passed over and a larger one evicted |
| RateLimiter.FilterInPlace | tools/makhor/pkg/middleware/middleware.go:259-265 | overwriting the array while reading it computes the order-preserving filter |
| RateLimiter.RecentMeaning | tools/makhor/pkg/middleware/middleware.go:259-265 | the filter keeps exactly the times after the cutoff |
| RateLimiter.Limiter.Allow | tools/makhor/pkg/middleware/middleware.go:252-279 | the new table and the answer; a granted request is recorded, as the last of its ip, whenever the ip has a time in the window or the table has room |
| RateLimiter.Limiter.Cleanup | tools/makhor/pkg/middleware/middleware.go:286-303 | every list filtered and empty ones dropped |
| RateLimiter.RequestMeaning | tools/makhor/pkg/middleware/middleware.go:259-278 | after a request its ip has the times in the window, with the new one if it is recorded; an unrecorded one changes nothing, and no request changes another ip |
| RateLimiter.CleanupMeaning | tools/makhor/pkg/middleware/middleware.go:286-303 | after a cleanup exactly the ips with a time in the window are left, with exactly those times |
| RateLimiter.RunAgrees | tools/makhor/pkg/middleware/middleware.go:252-304 | with time running forward and cleanups anywhere the table knows as much as the full history about every window from now on |
| RateLimiter.DeniedIff | tools/makhor/pkg/middleware/middleware.go:267-270 | a request is denied exactly when at least `limit` recorded grants lie in (now - window, now], and no window of that length anywhere holds more |
| RateLimiter.GrantsAsMeant | tools/makhor/pkg/middleware/middleware.go:252-279 | unless a request of the ip found the table full and nothing of its ip in the window, the limiter grants, over any run, exactly what one would that remembers every grant, and no window holds more than `limit` grants |
| RateLimiter.AllRecordedIff | tools/makhor/pkg/middleware/middleware.go:272-278 | all grants of an ip are recorded exactly in those runs |
| RateLimiter.UnrecordedIff | tools/makhor/pkg/middleware/middleware.go:272-275 | a grant goes unrecorded exactly when its request is of that kind, and the table then stays as it is |
| RateLimiter.RoomNoOverflow | tools/makhor/pkg/middleware/middleware.go:272-275 | none is as long as the table has room |
| RateLimiter.RunSmall | tools/makhor/pkg/middleware/middleware.go:228-279 | with a positive limit, never more than MaxTrackedIPs lists and none longer than the limit |
| RateLimiter.NoLimitGrows | tools/makhor/pkg/middleware/middleware.go:267-278 | a new ip is filed exactly when there is room or the limit is not positive: then the cap does not hold |
| Forecast.Combination | tools/status-board/main.go:300-310 | sums are linear, the fact that all the algebra rests on |
| Forecast.DenomIsSpread | tools/status-board/main.go:311 | the denominator is n times the sum of the squared distances from the mean |
| Forecast.DenomPositive | tools/status-board/main.go:311-314 | so it is positive whenever first and last sample are apart: the zero test never fires |
| Forecast.NormalEquations | tools/status-board/main.go:315-316 | the residuals of the fitted line sum to zero, plainly and weighted by time |
| Forecast.LeastSquares | tools/status-board/main.go:299-316 | whenever the fit is reached, no line has a smaller sum of squared errors and no other line has one as small |
| Forecast.BestIff | tools/status-board/main.go:299-316 | in clock time: the fitted line is the one line with the smallest sum of squared errors over the samples |
| Forecast.ForecastDaysToFull | tools/status-board/main.go:288-326 | -1 for less than four samples or six hours; otherwise by the best line through the samples, in clock time: -1 if it does not rise, 0 if it is at the top by now, else the number of days from now at which it is |
| Forecast.DaysAhead | tools/status-board/main.go:317-325 | the same, for any line |
| Avatar.CropCentred | tools/makhor/pkg/imaging/imaging.go:27-37 | the largest square that fits, with opposite margins that differ by at most one pixel |
| Avatar.PositionRange | tools/makhor/pkg/imaging/imaging.go:46-47 | positions stay within the square and meet both ends exactly |
| Avatar.AxisWithin | tools/makhor/pkg/imaging/imaging.go:49-69 | both indices in bounds, and the second one inside the square whenever it has weight, though it is clamped at the image's edge |
| Avatar.ReadsInBounds | tools/makhor/pkg/imaging/imaging.go:71-75 | the four reads of every destination pixel are in bounds |
| Avatar.BlendBetween | tools/makhor/pkg/imaging/imaging.go:106-112 | a blended channel lies between any bounds on the samples that have weight, so it never overflows |
| Avatar.BlendExact | tools/makhor/pkg/imaging/imaging.go:106-112 | the blend of four samples on a surface that is straight along both axes is its height at the position between them |
| Avatar.ResizeToSquare | tools/makhor/pkg/imaging/imaging.go:27-93 | every destination pixel is the sample of its position, which `SurfaceKept` and `OnlySquareCounts` are about |
| Avatar.SurfaceKept | tools/makhor/pkg/imaging/imaging.go:43-91 | every destination channel is the height, at the exact source position, of the surface through the pixels of the square less than one away, rounded down and cut to eight bits; on a plane that is the plane itself |
| Avatar.OnlySquareCounts | tools/makhor/pkg/imaging/imaging.go:43-91 | bounds on the channels of the square, whatever is outside it, bound the result |
| Avatar.CornersMeet | tools/makhor/pkg/imaging/imaging.go:46-51 | the corners of the result are the corners of the square |
| Avatar.SameSizeCopies | tools/makhor/pkg/imaging/imaging.go:43-91 | a square of the wanted size is copied pixel by pixel |
| DiskAlerts.ParseThresholds | ops/pkgs/syswatch/main.go:377-391 | refuses exactly the lists with a part that is no percent strictly between 0 and 100, and sorts the others downwards without loss |
| DiskAlerts.WorstMeaning | ops/pkgs/syswatch/main.go:395-403 | the smallest threshold above the sample, or 0 when there is none |
| DiskAlerts.Watcher.CheckDisks | ops/pkgs/syswatch/main.go:592-634 | the new table and the messages, with unreadable mounts skipped and vanished ones dropped |
| DiskAlerts.StepMeaning | ops/pkgs/syswatch/main.go:606-622 | whatever was armed before, by whatever list: an alert is posted exactly when a threshold more severe than the armed one is crossed, critical for the smallest; a recovery exactly when none is and the sample is a point above the armed one; either arms the most severe threshold crossed, and silence keeps the old one |
| DiskAlerts.ArmedMeaning | ops/pkgs/syswatch/main.go:604-622 | after any samples the armed value is 0, a threshold or what the state file had, at least as severe as every one crossed and 0 only when none is; while armed at t the last sample is below t + 1 |
| DiskAlerts.AlertsFall | ops/pkgs/syswatch/main.go:607-616 | between recoveries alerted thresholds strictly decrease |
| DiskAlerts.NoFlapping | ops/pkgs/syswatch/main.go:604-622 | samples in a band at most one point wide give at most one recovery, before every alert, and no threshold alerts twice |
| DiskAlerts.WiderBandFlaps | ops/pkgs/syswatch/main.go:589-591 | in any wider band alerts and recoveries can take turns |
| DiskAlerts.MountsApart | ops/pkgs/syswatch/main.go:598-623 | in one poll each mount's state and messages are those of its own samples alone |
| DiskAlerts.PollsAreRuns | ops/pkgs/syswatch/main.go:592-634 | over any polls, from whatever the state file held, each mount is armed as by its samples since a poll last missed it |
| ExploreGraph.Downstream | tools/status-board/forcegraph.go:588-591 | the targets of each node's outgoing edges |
| ExploreGraph.Board.ExpandFrom | tools/status-board/forcegraph.go:618-631 | opens the node and its neighbours outside hidden groups |
| ExploreGraph.Board.CollapseFrom | tools/status-board/forcegraph.go:632-644 | the queue search terminates and leaves exactly the other opened nodes that are still reachable |
| ExploreGraph.Board.Act | tools/status-board/forcegraph.go:612-644 | each user action is one step of the run model |
| ExploreGraph.Board.NodeVisible | tools/status-board/forcegraph.go:591-605 | what is drawn is what the run model calls visible |
| ExploreGraph.ClickShows | tools/status-board/forcegraph.go:615-631 | a click shows exactly the neighbours outside hidden groups besides what was shown; those in hidden groups stay closed |
| ExploreGraph.BoxesShow | tools/status-board/forcegraph.go:591-605 | what hiding a group, showing it, entering and leaving explore mode make visible and what they close |
| ExploreGraph.CollapsedIsGreatest | tools/status-board/forcegraph.go:632-644 | what is left is reachable through itself, and is the largest such set without the collapsed node |
| ExploreGraph.CompleteIff | tools/status-board/forcegraph.go:615-652 | collapsing takes back exactly what only the node led to, whatever is opened, exactly when it is not external or each of its neighbours that is not external has another external node leading straight to it |
| ExploreGraph.OneHostStays | tools/status-board/forcegraph.go:615-652 | the internet and one host, both opened: collapsing the internet leaves the host |
| ExploreGraph.CollapseExternal | tools/status-board/forcegraph.go:640-652 | collapsing an external node takes back nothing else |
| ExploreGraph.AlwaysExplored | tools/status-board/forcegraph.go:618-644 | in every run, from nothing or from a stored state that was in order or was cleared since, every opened node is reachable from an external one through opened nodes |
| ExploreGraph.VisibleReachable | tools/status-board/forcegraph.go:599-605 | so in explore mode nothing is visible that no external node leads to |
| Fleet.ComputeFleet | tools/status-board/main.go:979-1018 | each figure is the count or sum it is meant to be |
| Fleet.Partitioned | tools/status-board/main.go:994-1012 | every VM is counted once by tailscale state and once by backup state |
| Fleet.BucketMeaning | tools/status-board/main.go:1021-1038 | when a backup counts as bad, in doubt, in order or not configured; none gets better as it ages or by not existing |
| Fleet.OneVM | tools/status-board/main.go:979-1017 | the overview of one VM, figure by figure |
| Fleet.FleetsAdd | tools/status-board/main.go:979-1012 | the figures of two fleets add up |
| Fleet.AveragesAdd | tools/status-board/main.go:985-1016 | and their averages are weighted by the busy VMs |
| Fleet.AverageWithin | tools/status-board/main.go:987-990 | the average lies between the values averaged, and is 0 when there is none |
| Fleet.MeanReachableIff | tools/status-board/main.go:979-990 | it is the mean across reachable VMs exactly when each of these reports a CPU or the loads add up to 0 |
| Fleet.HalfBusy | tools/status-board/main.go:979-990 | two reachable VMs, one without a CPU: the average is twice the mean |
| FleetCache.StepKeeps | tools/status-board/main.go:1042-1086 | every step of any goroutine keeps the locks, the cache and what every other goroutine has read or is about to write in order |
| FleetCache.OneCollector | tools/status-board/main.go:1046-1053 | at most one collect round runs, and nobody reads while the cache is written |
| FleetCache.CallerGets | tools/status-board/main.go:1042-1086 | every caller gets exactly what one round found, or all unprimed, with the overview of exactly the VMs returned, no older than what was published when it called |
| FleetCache.StaleCollects | tools/status-board/main.go:1046-1086 | a caller that found neither a cache recent enough nor a round running gets a newer round than any published when it called |
| FleetCache.ExcusedNeverCollects | tools/status-board/main.go:1079-1085 | a caller that found either collects nothing |
| FleetCache.AskedCollects | tools/status-board/main.go:1046-1057 | a call of refresh, and a reader of a stale cache, begins a round at once unless one is running; then it reads the cache |
| FleetCache.PublishedGrows | tools/status-board/main.go:1064-1070 | published rounds never go backwards |
| FleetCache.NeverOlder | tools/status-board/main.go:1076-1086 | a call that begins after another one has its result never gets older values |
| FleetCache.WaitsOnlyFor | tools/status-board/main.go:1043-1045 | with readers held back by a pending writer, a goroutine still waits only while another is busy with the four variables and can go on, never for a collect round |
| Tags.GetParentTagName | tools/makhor/pkg/db/tags.go:202-209 | what is before the last pair of colons, or nothing |
| Tags.PrefixIsAncestorIff | tools/makhor/pkg/db/posts.go:1064-1071 | for any name, the prefix test finds exactly its ancestors exactly when it has no three colons in a row after its first character |
| Tags.WellFormedName | tools/makhor/pkg/handlers/tags.go:17 | names built from segments meet that condition |
| Tags.ParentDropsSegment | tools/makhor/pkg/db/tags.go:200-209 | the parent of such a name is the name without its last segment |
| Tags.HierarchicalCounts | tools/makhor/pkg/db/posts.go:1064-1075 | each count is the sum over the tag itself and the names with its prefix; over the tag and its proper descendants if all names meet that condition |
| Tags.CanCreateSubtagIff | tools/makhor/pkg/db/tags.go:261-287 | true exactly for a site admin, or when some ancestor-or-self, joined to the parent by active tags only, is created or administered by the user |
| RssImport.Database.PollFeed | tools/makhor/pkg/rsspoll/poller.go:190-242 | the tables after a poll, whatever goes wrong with its queries, the items counted, and never more than the limit |
| RssImport.OneItem | tools/makhor/pkg/rsspoll/poller.go:190-235 | one item without faults: known by its guid, or by its link if it has none, it becomes a post with its link and a row for it, unless it has neither or its (feed, guid) has a row |
| RssImport.PollExactIff | tools/makhor/pkg/rsspoll/poller.go:206-235 | a poll keeps posts and ledger rows in one-to-one correspondence exactly when it makes no post that gets no row of its own |
| RssImport.OrphanedIff | tools/makhor/pkg/rsspoll/poller.go:190-242 | which items those are: within the limit, with a guid, not found in the ledger, their post made, and the post not read back, its row not written or a row there already |
| RssImport.OrphanTwice | tools/makhor/pkg/rsspoll/poller.go:206-235 | such an item, left without a row, has two posts after the next poll without faults that gets to it within its limit |
| RssImport.MadeTwice | tools/makhor/pkg/rsspoll/poller.go:206-235 | an item of which two polls make a post has two posts, whatever went wrong in them |
| RssImport.NoRowTwice | tools/makhor/pkg/db/posts.go:80-84 | an item whose post cannot be read back, or whose row is not written, has two posts after the next poll |
| RssImport.LookupTwice | tools/makhor/pkg/db/rss.go:313-317 | a recorded item whose look-up fails gets a second post, and that no row |
| RssImport.PollsExactIff | tools/makhor/pkg/db/rss.go:313-326 | over any polls of any feeds with any faults, that correspondence holds exactly when no poll makes such a post |
| RssImport.PollsExact | tools/makhor/pkg/db/rss.go:313-326 | in particular without database errors |
| RssImport.ExactCounts | tools/makhor/pkg/db/rss.go:313-326 | then no (feed, guid) has two posts and there are as many rows as posts |
| RssImport.UnchangedFeed | tools/makhor/pkg/rsspoll/poller.go:190-242 | after k polls of an unchanged feed the first min(k * limit, d) of its d guids are imported, in document order, duplicates or not; without a limit all after one |
| StripHtml.StripHTML | tools/makhor/pkg/rsspoll/poller.go:389-432 | the passes of the source give the text that `DocumentStripped` and `StripFixed` are about |
| StripHtml.StripNormal | tools/makhor/pkg/rsspoll/poller.go:418-432 | the output has no brackets, tabs or double spaces, no space around newlines, no three newlines in a row and no space at its ends |
| StripHtml.StripFixed | tools/makhor/pkg/rsspoll/poller.go:389-432 | a text is left as it is exactly when it is in that normal form; stripping twice is stripping once |
| StripHtml.StripLines | tools/makhor/pkg/rsspoll/poller.go:389-432 | every line of the output is trimmed and has no run of blanks |
| StripHtml.TextThenTag | tools/makhor/pkg/rsspoll/poller.go:404-416 | text outside tags is kept and a tag is dropped whole, and so on through the rest |
| StripHtml.StripKeepsUntagged | tools/makhor/pkg/rsspoll/poller.go:404-432 | every word outside tags is kept as it is and in order, none cut and no two run together; so is every character that is not space |
| StripHtml.StripKeepsText | tools/makhor/pkg/rsspoll/poller.go:389-432 | if no tag opens inside a tag, these are the characters outside the tags of the original |
| StripDocument.PiecesShown | tools/makhor/pkg/rsspoll/poller.go:391-416 | twelve replacements and a sweep read a document of text and tags as it would be read once, piece by piece: text as it is, each tag as its line breaks |
| StripDocument.BlockTagBreaks | tools/makhor/pkg/rsspoll/poller.go:391-402 | each of the twelve tags, between any two texts, is one newline or two; between two tidy lines that is all that happens |
| StripDocument.TidiedLines | tools/makhor/pkg/rsspoll/poller.go:418-432 | white space: every line tidied, empty lines at either end dropped and any number between two others made one |
| StripDocument.LineWords | tools/makhor/pkg/rsspoll/poller.go:420-424 | a line whose spaces are blanks becomes its words with one space between them |
| StripDocument.DocumentStripped | tools/makhor/pkg/rsspoll/poller.go:389-432 | all of it together, for every document of text and tags: its lines, its words, and when it is left as it reads |
| InviteTree.Database.CreateUser | tools/makhor/pkg/db/users.go:131-159 | a taken name or address is refused, an unknown inviter too; otherwise one user with the next id; every inviter stays older than its invitees |
| InviteTree.Database.GetInviteTree | tools/makhor/pkg/db/users.go:368-402 | terminates with a tree in which every node has exactly the users it invited below it, or reports a missing user |
| InviteTree.TreeExact | tools/makhor/pkg/db/users.go:368-402 | the tree holds exactly the users whose chain of inviters reaches the root, each once |
| InviteTree.OneRoot | tools/makhor/pkg/db/users.go:131-159 | every user is in the tree of exactly one user that nobody invited |
| InviteTree.NewUser | tools/makhor/pkg/db/users.go:147-159 | a new user appears in its own tree and in those its inviter is in; no other tree changes |

## Left out

- NntpServer.Store.Post: does not model disk writes that fail for another reason than the name of the group, such as a full disk, because what they leave behind is up to the file system; `byMsgID` is compared by its keys across restarts, because which copy of a cross-post it holds depends on load order.
- NntpRestarts.RestartsInvisibleIff: is about restarts that can read the whole spool, and about a spool that nobody else writes to.
- NntpThreads.App.BuildTree: requires that `flatten` returns, because otherwise the code recurses for ever; `ReturnsIff` says when that is.
- FlowEviction.Listener.EvictOldFlows: takes the counter as fixed during one eviction and ids as unbounded, because a draw in between only postpones the full scan; flows restored from a file are not modelled.
- RateLimiter.Limiter.Allow: filters a private copy of the list in place, because no two map entries share an array in the original; the table itself is a map of values.
- RssImport.PollsExactIff: is about polls one after the other; two pollers on one feed at once are not modelled.
- InviteTree.Database.CreateUser: check and insert are one step; two registrations at once are not modelled.
- Forecast.ForecastDaysToFull: rounding of floats is not modelled.
- Avatar.ResizeToSquare: size 1 is left out, because the code divides zero by zero there, and so are negative sizes and origins, which no decoder delivers; decoding and encoding are not modelled.
- StripHtml.StripHTML: invalid UTF-8 is not modelled.
- FleetCache.StepKeeps: expiry by age is a free choice of the environment, and what a collect round scrapes is a parameter.
- Signing, the confirmation dialogue, article overviews and the remaining news commands: they add nothing to the properties above.
- HTTP handlers, templates, drawing and terminal code, TLS, SSH, mail, IRC, SQL and its migrations: presentation or foreign code.
- Interception channels, fuzz and spider jobs of the proxy: they depend on code that is not part of this model.
- Votes, pagination, formatting helpers, the other watch bots and the Nix files: they would only add easy members.

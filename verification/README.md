# A verified model of the network file system

Clients send requests to one naming server, which knows up to ten storage servers and keeps an index
from paths to the storage server that holds them. This project models the parts of that system where
state is hardest to keep right, and proves what they are for.

* **The path index** (`uthash.h`). A table is two linked structures over the same nodes: a doubly
  linked list in application order, and an array of bucket chains that doubles. `Elements`, `Links`,
  `Buckets` and `PathIndex` hold the nodes on the heap and run the macros' own loops; `StableSort`,
  `Chains`, `Heuristic` and `Bits` say what those loops compute on sequences and numbers. `LookupOrder`
  abstracts a table, with keys added once or more often, to insertion order, the order in which a
  lookup prefers elements, and the numbers that decide when it expands. `IndexRuns` shows for whole
  runs and every hash function that each answer is that of the abstract table, and that as long as
  plain adds are of new keys this is a finite map that remembers insertion order. `RepeatedKeys` says
  which element is found when they are not, and `OneBucket` follows adds to a single bucket without end.
* **The naming server** (`NamingServerModule.c`). `Registry` has the registered servers and the index
  entries as values, with what holds in every reachable state; `NamingServer` is the class that updates
  the array of servers and the index in place. `Handshake` is the GETPATHS exchange as two processes
  and their channels, and `ListRefresh` what it stores in a server's record; `Relay` the three-stage
  transfer of a COPY; `Lru` the two copies of the cache.
* **Text** (`NamingServerModule.c`, `clientfunctions.c`). `Text` says what the words of a string are,
  `Strip` has the two in-place strip routines, `Requests` the way of a typed line to the paths the
  server extracts from it, and `Listing` the LISTALL encoding with the client's parser.
* **The storage server's tree** (`StorageServerModule.c`). `FileTree` has a tree of files as a value
  and path lookup in it; `Disks` the system calls on it; `MakingDirectories`, `RemovingDirectories` and
  `ListingDirectories` the routines that walk it; `TreeListing` the listings and the relocation of a
  copied directory; `StorageServer` the GETPATHS, CREATE and directory-COPY requests built from them.
  `Creation` joins CREATE on the naming server and on the storage servers it asks.

Everything is checked with `dafny verify dfyconfig.toml`.

## Where the code does not do what it is for

Each of these is proved with the exact condition under which the code is right.

* Expanding the buckets reverses every chain, whichever bucket made the table expand. Of several
  elements with a key (every storage server registers the path `.`, and the naming server only ever
  adds) the newest is found exactly when the table has expanded an even number of times since the key
  was last added: `RepeatedKeys.NewestExactly`. Of two the older is found otherwise, of three it may be
  neither the newest nor the oldest; which one it is in every case is `RepeatedKeys.FoundIsPreferred`.
  `IndexRuns.DuplicateKeyFlips` reaches the instant of a first expansion on a live table,
  `OneBucket.AddAndFind` goes on to any number of adds to one bucket, of which the tenth and the
  hundredth expand, and
  `NamingServer.NameServer.RecordInFront` says which server's record the naming server then uses.
* The server's strip runs its condensing loop a second time from the old start. It is right exactly
  when there is no leading white space, or more of it than the result is long:
  `Strip.ServerStripExactly`. The client's strip leaves its terminator where the text ended before it
  was moved, so it is right exactly when there is no leading white space: `Strip.ClientStripExactly`.
  Lines with leading white space do not reach the server from this client, whose commands are compared
  at the start of the line: `Requests.RequestArrivesCanonical`.
* The LISTALL parser spins for ever on a response that is not empty and starts with neither a star nor
  a dollar sign: `Listing.ParserTerminatesExactly`. This server's responses always start with a star.
  The parser reads the encoding back exactly when every server lists at least one path:
  `Listing.ListingRoundTrip`.
* The GETPATHS exchange blocks for ever at the first empty path: `Handshake.StuckOnlyAtEnd`. A storage
  server never lists one: `StorageServer.AccessiblePathsAreSendable`.
* The naming server's cache lookup stops at the twelfth element and takes it for the key. It finds what
  is not there exactly for an absent key in a list of twelve or more: `Lru.CutoffFindsAbsent`. It is
  indistinguishable from the storage server's exactly when the capacity is at most eleven:
  `Lru.CutoffMattersFromTwelve`.
* A COPY opens its destination without truncating it, so a longer old file keeps its tail:
  `Relay.CopyDelivers`. That file is the receiver's `<path>1.zip`, which is unzipped and removed
  afterwards, so it matters only when one was left behind.
* With three servers or more, a created path goes into the slot with the server's own number, whatever
  the length of its list: `Registry.CreateAppendsExactly`.
* CREATE on a storage server never answers `-1`, so the naming server indexes every path it was asked
  to create. When the creation works is `StorageServer.CreateSucceedsExactly`, when anything is there
  under the path afterwards is `StorageServer.CreateNamesExactly`, and both together with the new index
  entry are `Creation.CreateOnFirst`. A path without a slash is made a directory, never a file:
  `StorageServer.SlashlessCreate`. Paths are never taken out of the index: `Registry.IndexedForGood`.
* mkdir_p fails on every absolute path, because its first mkdir is on the empty string, and succeeds on
  the path of a regular file: `MakingDirectories.MkdirPExactly`.
* deleteDirectory fails at its last step, with the directory emptied, when the path ends in `.` or
  `..`, and part-way or at its last step when the path leads through something below the directory
  itself, which is removed on the way: `RemovingDirectories.DeleteDirectory`.
* A directory copy drops the directory's own name when the first path has no slash or ends in one:
  `TreeListing.BaseKeepsName`.

## Model

| member | source | states |
|---|---|---|
| Bits.MaskIsMod | uthash.h:433-436 | masking with a power of two less one is the remainder, so a bucket number is the hash value modulo the number of buckets |
| Bits.CeilByShiftAndMask | uthash.h:849-851 | the shift, and one more if any masked bit is set, is the quotient rounded up |
| StableSort.MergeSorts | uthash.h:916-953 | merging two sorted runs gives a sorted run |
| StableSort.MergeIsStable | uthash.h:916-953 | merging keeps elements that compare equal in their order, those of the left run first |
| StableSort.PassDoublesRuns | uthash.h:903-971 | if all aligned runs of `insize` are sorted before a pass, all aligned runs of twice that are afterwards |
| StableSort.PassKeepsContent | uthash.h:903-971 | a pass permutes the list and keeps equal elements in order |
| StableSort.LastPassSorts | uthash.h:960-971 | a pass that merged at most once leaves the whole list sorted |
| StableSort.StablySortedIsUnique | uthash.h:893-975 | there is only one stable sorting of a list, so the sort is determined |
| StableSort.StablySortedMeans | uthash.h:893-975 | of any two places in the sorted list the earlier element does not compare greater, and if the two compare equal it was the earlier before |
| StableSort.InsertKeepsSorted | uthash.h:289-296 | an in-order add keeps a sorted list sorted, after every element that compares equal and before every greater one |
| StableSort.InsertedAllSorts | uthash.h:353-384 | elements added in order one by one are the stable sorting of the order they were added in |
| StableSort.InsertingIsSorting | uthash.h:353-384 | adding in order gives the very list that appending and then sorting gives |
| Links.MergeRuns | uthash.h:916-956 | the merge loop on the heap appends the merge of the two runs to the output list, with both link directions right |
| Links.SortPass | uthash.h:901-960 | one pass on the heap leaves the list that a merge pass gives, with its head, and counts the merges |
| Links.SortList | uthash.h:893-975 | the whole sort ends and leaves a coherent list that is the stable sorting of the old one |
| Chains.SpreadIsReversedShare | uthash.h:853-873 | a new bucket's chain is the reverse of the old chain's elements that the wider mask sends there |
| Chains.SlotHalves | uthash.h:836-886 | the bucket under the old mask follows from the one under the wider mask, so each new bucket is filled from one old one |
| Chains.ExpansionKeepsPartition | uthash.h:836-886 | after an expansion each element is in exactly one chain, the one that its hash value selects; none is lost or repeated |
| Chains.ExpansionKeepsLookUp | uthash.h:748-767 | a key is found after an expansion if and only if it was before; the element is the same if and only if no two elements of its chain have the key |
| Chains.LookUpFinds | uthash.h:156-166 | a lookup finds a key exactly when some element of the table has it |
| Chains.PartitionCounts | uthash.h:519-566 | the chains together are as long as the application-order list |
| Heuristic.MultClosedForm | uthash.h:859-864 | the multiplier that counting a chain of given length up leads to, in closed form |
| Heuristic.MultBound | uthash.h:859-864 | a multiplier is positive exactly beyond the ideal length, and one less than it times the ideal length is below the count |
| Heuristic.NonidealGrows | uthash.h:859-860 | counting each element beyond the ideal length as it is added gives the sum of all chains' excess |
| Heuristic.NoexpandExactly | uthash.h:878-882 | expansion is switched off exactly after two consecutive expansions after each of which twice the nonideal elements were more than all elements, and stays off |
| Buckets.IdealChainLength | uthash.h:849-851 | the ideal chain length is the number of elements divided by the new number of buckets, rounded up |
| Buckets.MoveBucket | uthash.h:854-873 | the inner loop moves all of one old chain into the new buckets, with links, counts, multipliers and the nonideal count right |
| Buckets.Rehash | uthash.h:836-886 | the new buckets hold exactly the expanded chains, with multipliers and the nonideal count as specified |
| Buckets.FindInBkt | uthash.h:748-767 | the walk returns the first element of the chain with the key, or null |
| Buckets.DelInBkt | uthash.h:792-805 | exactly one handle leaves its chain; head, count and both links stay right and other chains are untouched |
| PathIndex.Index.Add | uthash.h:399-418 | the element becomes the last in application order and the first of its bucket; the first makes 32 buckets, and any other doubles them exactly when expansion is on and its bucket then has at least ten times one more than its multiplier |
| PathIndex.Index.ExpandBuckets | uthash.h:836-886 | an expansion keeps the whole table invariant and the application order, and sets the counters to what was measured |
| PathIndex.Index.Find | uthash.h:156-175 | a key is found exactly when some element has it, and the element returned has it |
| PathIndex.Index.Delete | uthash.h:453-480 | exactly the element leaves both structures and the invariant holds; the last element takes the table with it |
| PathIndex.Index.AddInOrder | uthash.h:353-384 | the element goes where in-order insertion puts it, in front, in the middle or at the end, and the table invariant holds |
| PathIndex.Index.Replace | uthash.h:257-272 | the element found by the key, if any, is taken out and returned, and the new one comes last |
| PathIndex.Index.Sort | uthash.h:893-975 | the application order becomes its stable sorting with head and tail right; chains, buckets and counters stay as they are |
| PathIndex.Index.Elements | uthash.h:1059-1066 | an iteration lists the elements in application order |
| PathIndex.Index.Fsck | uthash.h:519-566 | the header's own integrity check passes on every table that satisfies the invariant |
| PathIndex.FrontKeepsPartition | uthash.h:770-784 | an element put at the front of its bucket leaves each element in the one chain its hash value selects |
| PathIndex.RemovalKeepsPartition | uthash.h:453-480 | so does taking one element out |
| LookupOrder.FrontIsPreferred | uthash.h:770-784 | an add puts its element first among those with its key, in whatever bucket |
| LookupOrder.ExpansionReverses | uthash.h:836-886 | an expansion turns round the order of preference among the elements with each key |
| LookupOrder.AddStarts | uthash.h:780-784 | whether an add expands the table follows from how many elements share its bucket, the bucket's multiplier and the expansions so far |
| LookupOrder.ExpansionRegrows | uthash.h:849-882 | the multipliers and the measure after an expansion follow from the elements' shares of the new buckets |
| LookupOrder.AddTracked | uthash.h:399-418 | an add on a live table does what the abstract add does |
| LookupOrder.ReplaceTracked | uthash.h:257-272 | a replace finds the element first in preference, takes it out of both orders, and adds the new one |
| LookupOrder.FindTracked | uthash.h:156-175 | a find returns the element with the key that is first in the order of preference |
| IndexRuns.Apply | uthash.h:257-272 | one add, put, get or remove on a live table does to it, and answers, what it does on the abstract table |
| IndexRuns.Run | uthash.h:399-480 | every answer of any run of adds, puts, gets and removes on a new table, keys repeated or not, and the listing after it, are those of the abstract table |
| IndexRuns.FreshRunsAreMaps | uthash.h:399-480 | in a run that adds only keys that are not there, every answer and the entries are those of the simple index, whatever the hash function and the expansions |
| IndexRuns.MapLaws | uthash.h:257-272 | the simple index is a finite map with insertion order: an operation changes what is found under its own path only |
| IndexRuns.AnswerExactly | uthash.h:156-175 | a put, a get and a remove are answered an entry exactly when it is there and has the path; an add is answered nothing |
| IndexRuns.TenthAddFlips | uthash.h:780-784 | adds to one bucket: the first nine go in front of those before them, and the tenth expands the table and leaves the oldest in front |
| IndexRuns.DuplicateKeyFlips | NamingServerModule.c:384-393 | on a live table, of two elements with one key that were the first of nine in their bucket, the newer is found just before a tenth is added there and the older just after it |
| RepeatedKeys.FoundIsPreferred | uthash.h:748-767 | after any adds, under any hash function, the element found is the first in the order that each add of the key starts anew in front and each expansion of the table turns round |
| RepeatedKeys.NewestIsAtAnEnd | uthash.h:836-886 | that order has the elements with the key once each, the newest first after an even number of expansions since its add and last after an odd one |
| RepeatedKeys.NewestExactly | uthash.h:748-767 | the newest element with a key is found exactly when there is at most one, or the table has expanded an even number of times since the key was last added |
| RepeatedKeys.OlderOfTwo | uthash.h:748-767 | of two elements with a key the older is found exactly when the newer is not |
| RepeatedKeys.MiddleOfThree | uthash.h:748-767 | of three it may be neither the newest nor the oldest |
| RepeatedKeys.RunFindsNewestExactly | uthash.h:399-480 | so it is in every run of adds and lookups |
| RepeatedKeys.FoundInFront | uthash.h:156-175 | and on every live table that has only been added to |
| OneBucket.ExpandsTwice | uthash.h:780-783 | of any number of adds whose hash values agree modulo 128, the tenth and the hundredth expand the table and no other does |
| OneBucket.FoundOfPair | uthash.h:748-767 | in such a bucket, of two elements with a key that came first, the newer is found while there are fewer than ten elements, the older from ten to ninety-nine, and the newer from a hundred on |
| OneBucket.AddAndFind | uthash.h:399-418 | so it is on a live table after any number of adds |
| Registry.EventKeepsKnown | NamingServerModule.c:338-393 | registration, creation and list refresh keep at most ten servers, leave all endpoints alone, only add index entries, and each entry leads to a registered server |
| Registry.ReachableIsKnown | NamingServerModule.c:1626-1637 | in every reachable state every index entry carries the endpoint of some registered server |
| Registry.IndexedForGood | NamingServerModule.c:1479-1654 | a path that is indexed once is indexed in every later state |
| Registry.RegisteredExactly | NamingServerModule.c:338-393 | a registration appends the server and one entry for each of its paths, in their order, after those there are; an eleventh server changes nothing |
| Registry.CreatedExactly | NamingServerModule.c:1451-1456 | a noted creation changes one slot and the count of one server, and adds one entry; with the slot after server 0's list it appends the path to that list |
| Registry.RefreshedExactly | NamingServerModule.c:256-316 | a refresh leaves all other servers, the endpoint and the entries alone; the count alone changes when no list follows, and otherwise all 500 slots |
| Registry.CreateAppendsExactly | NamingServerModule.c:718-721 | a creation appends the path to the server's list exactly when the slot is the one after the list, or the slots hold the path already |
| Registry.ReplicasAreDistinct | NamingServerModule.c:1344-1355 | the path and its two backup paths are always different |
| Registry.BackupTexts | NamingServerModule.c:1344-1355 | the backups of `.x` are `./Backup0x` and `./Backup1x`, and a path without a leading dot has its whole text after the digit |
| Registry.BackupsCollideExactly | NamingServerModule.c:641-653 | two paths share a backup exactly when they are equal or differ in one leading dot only; the two kinds of backup never meet |
| Registry.CompletedExactly | NamingServerModule.c:712-730 | the replies of different servers, in any order, give each its path in its own slot, leave the others alone, and add one entry a reply |
| Registry.OrderMakesNoDifference | NamingServerModule.c:712-730 | two orders of the same replies give the same servers and the same set of entries |
| Registry.FanOutBinds | NamingServerModule.c:1338-1401 | in whatever order the replies come, and whichever servers reply, every path whose server has replied and that was fresh is bound to that server's record, and to nothing else |
| NamingServer.JobsIndexReplicas | NamingServerModule.c:1369-1401 | for a path without white space the handler of server k reads back and indexes replica k; the handlers are those of servers 0, 1 and 2 |
| NamingServer.JobTexts | NamingServerModule.c:1344-1377 | the servers and the texts of the three requests |
| NamingServer.NameServer.Register | NamingServerModule.c:338-400 | a server is taken up exactly when fewer than ten are: it is the last then, the others and the old entries stay, and entry j after them is its j-th path with its record; otherwise nothing changes |
| NamingServer.NameServer.Resolve | NamingServerModule.c:1495-1500 | a path is found exactly when it is indexed, and what is found is the entry in front, which leads to a registered server |
| NamingServer.RegisterAndResolve | NamingServerModule.c:384-393 | after a registration every listed path is found, and one that was not indexed before with the new server's record |
| NamingServer.NameServer.RecordInFront | NamingServerModule.c:1495-1500 | after any registrations and creations, of several entries for a path the record found is the newest entry's if the expansions since the path was last added are even in number, and of two the older entry's otherwise |
| NamingServer.NameServer.Create | NamingServerModule.c:1276-1474 | an indexed path changes nothing; with three servers or more the three jobs are started; with one or two, unless server 0 answers -1 or is not reached, its list gets the path at the end, the path gets one entry with its new record, and nothing else changes |
| NamingServer.NameServer.CompleteJob | NamingServerModule.c:709-743 | a reply other than -1 puts the path in the slot with the server's number, counts it and adds one entry, with all other slots and servers as before; -1 changes nothing |
| NamingServer.NameServer.UpdateList | NamingServerModule.c:256-316 | a list refresh changes one server's count and slots as far as the exchange went, and no endpoint |
| NamingServer.NameServer.Delete | NamingServerModule.c:1490-1652 | an indexed path leads to the first server with its entry's address and port, the search for which always succeeds, and that server's list is refreshed; the index is not changed |
| NamingServer.NameServer.Copy | NamingServerModule.c:1662-1822 | the first path missing and the second missing are refused exactly then; otherwise there is a conflict exactly when the receiving server lists the second path, a slash and the name that ends the first; otherwise both ends are registered endpoints of the two paths |
| NamingServer.FileNameExactly | NamingServerModule.c:1057-1067 | the name is the part without slashes that follows a slash at the end of a path, or all of a path without one |
| NamingServer.NameServer.ListAll | NamingServerModule.c:1957-1981 | the response is the encoding of the registered servers' lists |
| Creation.CreateOnFirst | NamingServerModule.c:1410-1474 | with one or two servers, a path not indexed goes to the end of server 0's list and into the index whatever the storage server does; its answer and whether anything is there under the path afterwards follow exactly from conditions on the tree before |
| Creation.CreateOnThree | NamingServerModule.c:1338-1409 | with three servers or more, handlers completing in any order, with any replies, leave what the replies other than -1 make of the registry |
| Creation.SucceededContent | NamingServerModule.c:712-730 | a server counts as one that created its replica exactly when it replied, and not -1 |
| Creation.CreateAndResolve | NamingServerModule.c:1338-1409 | a lookup then finds each created fresh path on its own server, with that server's record |
| ListRefresh.HandshakeStores | NamingServerModule.c:263-305 | in every state of every run of the handshake the record is the old one with what that state has fetched: nothing, a count, or a count and the first paths |
| ListRefresh.CompleteRunRefreshes | NamingServerModule.c:263-305 | a complete run leaves exactly the storage server's list in the record, and its endpoint alone |
| Listing.Encode | NamingServerModule.c:1961-1981 | the appending loops build exactly the encoding |
| Listing.TextOfTwo | NamingServerModule.c:1961-1981 | for two servers with one and two paths the text is `*1$a*2$b$c*` |
| Listing.DecimalDenotes | NamingServerModule.c:1971-1974 | the text of a number is the one that denotes it in base ten without a leading zero |
| Listing.ClientListAll | clientfunctions.c:440-471 | the index-advancing loop prints exactly what the parser specification says |
| Listing.ListingRoundTrip | clientfunctions.c:440-471 | for paths without star, dollar sign and NUL, the client recovers the numbered servers and their paths if and only if every server has a path; for no server it prints none |
| Listing.BodyAdvances | clientfunctions.c:440-471 | an iteration that starts at a mark moves on and ends at a mark |
| Listing.ParserTerminatesExactly | clientfunctions.c:440-471 | the parser ends exactly on responses that are empty or start with a star or a dollar sign |
| Handshake.InvAlways | NamingServerModule.c:256-316 | the exchange's invariant holds in every state of every run of the two processes |
| Handshake.HandshakeIsSafe | StorageServerModule.c:769-833 | what is stored is always a beginning of the sender's list, at most two messages are under way one way and one the other, and no error branch is taken; when finished, count and list are the sender's |
| Handshake.StuckOnlyAtEnd | StorageServerModule.c:809-833 | a run that can go no further is complete, unless it stands before the first empty path |
| Handshake.RunsEnd | NamingServerModule.c:256-316 | no run is longer than 10 + 4n steps, and one is complete exactly when it has that many |
| Relay.RunsConserve | NamingServerModule.c:1889-1927 | in every interleaving and chunking, written, in flight twice and unread bytes together are the source, in order, and every step leaves less to do |
| Relay.NoDeadlock | NamingServerModule.c:1889-1927 | a transfer that is not over can always go on |
| Relay.CopyDelivers | StorageServerModule.c:1337-1362 | at the end the destination is the source and what the old file had beyond it; it is the source exactly when the old file was not longer |
| Lru.Cache.Access | StorageServerModule.c:123-147 | a lookup hits exactly when the key is there, and puts its node first with the others in order |
| Lru.Cache.AccessCut | NamingServerModule.c:135-169 | the naming server's lookup stops at the twelfth node, which it takes for the key if the walk gets that far |
| Lru.Cache.AddServer | StorageServerModule.c:149-173 | an insert goes first, and drops the last node exactly when the cache is full |
| Lru.RunsByRecency | StorageServerModule.c:123-173 | over every run that inserts on misses only, the size stays within the capacity, keys are distinct, and the order is that of the last uses |
| Lru.FullInsertDropsOldest | StorageServerModule.c:161-170 | what a full insert drops is the least recently used key |
| Lru.CutoffFindsAbsent | NamingServerModule.c:135-169 | it reports an absent key as found exactly in lists of twelve nodes or more, and whenever the key is not among the first eleven of so many it moves the twelfth to the front |
| Lru.CutoffExactly | NamingServerModule.c:135-169 | one lookup of the two copies agrees exactly when the list has at most eleven nodes or the key is among the first twelve |
| Lru.CutoffMattersFromTwelve | NamingServerModule.c:135-169 | the copies are indistinguishable over all runs exactly for capacities up to eleven |
| Lru.Run | StorageServerModule.c:123-173 | the linked list answers every lookup of any run as the recency sequence does |
| Strip.CondenseIsCanon | NamingServerModule.c:784-806 | condensing a trimmed text gives its words joined by single spaces |
| Text.SpacesAre | clientfunctions.c:505-514 | white space is the space, tab, newline, vertical tab, form feed and carriage return, and nothing else |
| Strip.CanonicalIsPlain | NamingServerModule.c:784-806 | a text is its own canonical form exactly when it is empty or has no tab, newline, vertical tab, form feed or carriage return, no space at its ends and no two in a row; every canonical form is so |
| Strip.ServerStrip | NamingServerModule.c:766-835 | the in-place routine, with both condensing loops, leaves the specified C string |
| Strip.ServerStripExactly | NamingServerModule.c:766-835 | that string is the canonical form exactly when there is no leading white space, or more than the canonical form is long |
| Strip.ClientStrip | clientfunctions.c:500-521 | the in-place routine leaves the trimmed text followed by a repeat of its end as long as the white space removed |
| Strip.ClientStripExactly | clientfunctions.c:500-521 | that is the trimmed text exactly when there is no leading white space |
| Requests.StrippedEnds | clientfunctions.c:500-521 | of a line that is not blank, what the client's strip leaves has none of the six white space characters at its ends |
| Requests.RequestArrivesCanonical | clientfunctions.c:552-582 | every line the client sends is in canonical form after the server's strip, and is the canonical form of what was typed if that has no leading white space |
| Requests.TypedLineArrives | clientfunctions.c:552-582 | a line keeps its words through the client's strip exactly when it has no leading white space or nothing else |
| Requests.PlainLineArrives | clientfunctions.c:551-552 | a plain line with the newline that ends it arrives as it is, and its fields are its words |
| Requests.DispatchExactly | clientfunctions.c:555-582 | each command is chosen exactly when the request starts with its name |
| Requests.FieldsJoin | NamingServerModule.c:837-915 | the fields that the extraction tells apart have no spaces, and joined by single spaces they are the string |
| Requests.FieldsOfJoin | NamingServerModule.c:837-915 | the fields of a canonical request are its words |
| Requests.ExtractPath | NamingServerModule.c:837-870 | on any string the path is the second field if there is one that fits, and is left alone otherwise |
| Requests.ExtractPathThird | NamingServerModule.c:872-915 | and the third path is the third field |
| Requests.TakeApart | NamingServerModule.c:1085-1130 | from anything the client sends, the server extracts its second and third word, which for a plain line are its second and third field |
| Requests.TakePlainLine | NamingServerModule.c:1085-1130 | from the buffer with a plain line and its newline, both strips in place leave the line, and the paths extracted are its second and third field |
| FileTree.ComponentsSplit | StorageServerModule.c:100-111 | at a slash, the names of a path are the names before it and those from it on |
| FileTree.LookUpLaws | StorageServerModule.c:100-111 | a path leads where its last name leads from the directory before it, a dot to that directory and two to its parent; a relative path starts at the working directory and an absolute one at the root |
| FileTree.MadeExactly | StorageServerModule.c:96-121 | making directories along names succeeds exactly when no regular file has to be entered, and then adds exactly the missing positions, as directories |
| MakingDirectories.MkdirP | StorageServerModule.c:96-121 | the loop that cuts its copy of the path at every slash and restores it does to the tree, and returns, what mkdir name by name does |
| MakingDirectories.MkdirPExactly | StorageServerModule.c:96-121 | it succeeds exactly on non-empty relative paths along which no regular file has to be entered; it adds exactly the missing directories, loses nothing, and keeps the tree closed |
| MakingDirectories.MkdirPTwice | StorageServerModule.c:102-104 | making a directory again succeeds and changes nothing |
| RemovingDirectories.DeleteDirectory | StorageServerModule.c:314-367 | it ends; on success exactly the subtree is gone; a failure leaves everything outside it; it succeeds exactly when the path opens a directory no part of which resists, does not end in "." or "..", and does not lead through anything below that directory |
| RemovingDirectories.PlainPaths | StorageServerModule.c:314-367 | a path without ".." never leads through what is below its end, and opens it exactly if it is a directory |
| Disks.LastNameExactly | StorageServerModule.c:358-366 | the last name of a path is what follows its last slash, also with a slash after it |
| RemovingDirectories.EmptiedOpens | StorageServerModule.c:358-366 | once a directory has been emptied, its path still opens it exactly when it does not lead through what was below |
| RemovingDirectories.RmdirIsRemoval | StorageServerModule.c:358-366 | once all its entries are gone the directory is empty, and removing it completes the removal of the subtree |
| ListingDirectories.Listings.ListDirectories | StorageServerModule.c:214-261 | the directory itself, then every directory below it once and after the one it is in; all of them unless the limit is reached |
| ListingDirectories.Listings.ListFiles | StorageServerModule.c:263-313 | every regular file below the directory, once; all of them unless the limit is reached |
| ListingDirectories.Listings.UpdateAccessiblePaths | StorageServerModule.c:446-487 | everything below the directory, once and after the directory it is in |
| TreeListing.ListedByCount | StorageServerModule.c:245-249 | a listing that stops only at its limit misses nothing if all there is fits the limit |
| TreeListing.GetDirectoryPath | StorageServerModule.c:368-401 | the search from the end gives what precedes the last slash, or the whole path, always a beginning of it |
| TreeListing.ReplacePrefixExactly | StorageServerModule.c:403-444 | the first occurrence of the prefix is replaced and what precedes it is lost; without one the string stays |
| TreeListing.RelocatedBelowBase | StorageServerModule.c:403-444 | the prefix is found at the start of every listed path, so the rest of the path follows the new base unchanged |
| TreeListing.RelocationKeepsShape | StorageServerModule.c:1028-1034 | what lay at a position below the copied directory goes to that position below one and the same place |
| TreeListing.RelocationIsInjective | StorageServerModule.c:1101-1104 | different things go to different paths |
| TreeListing.BaseKeepsName | StorageServerModule.c:1028-1034 | the copy keeps the directory's name under the second path exactly when the first path has a slash and does not end in one; otherwise the contents go into the second path itself |
| StorageServer.ListAccessiblePaths | StorageServerModule.c:770-774 | the registered list is the mount point and then everything below it |
| StorageServer.AccessiblePathsAreSendable | StorageServerModule.c:488-505 | that list is never empty and has neither repetitions nor empty paths |
| StorageServer.Create | StorageServerModule.c:835-883 | the tree and the answer are those of the specification, and the tree stays closed |
| StorageServer.CreateSucceedsExactly | StorageServerModule.c:835-883 | for every path, by whether a condition on the tree holds, the answer is "1" or "2" if it ends in a slash and "4" or "3" if not, and never -1; what was created is there |
| StorageServer.CreateNamesExactly | StorageServerModule.c:835-883 | for every path something is there afterwards exactly when nothing to enter is a regular file, or, for an absolute path, when its directory was there |
| StorageServer.CreateFileExactly | StorageServerModule.c:854-880 | for every path that does not end in a slash, absolute or not, the file is opened exactly when no regular file has to be entered on the way and it is no directory, before or by what is made on the way |
| StorageServer.SlashlessCreate | StorageServerModule.c:854-880 | a new name without a slash becomes a directory; only a file that was there already is opened |
| StorageServer.PlanDirectoryCopy | StorageServerModule.c:993-1105 | the new paths are the relocations of the directory and all directories below it, parents first, and of all files, if the arrays have room |
| StorageServer.CopyKeepsShape | StorageServerModule.c:1028-1105 | the new paths name each thing below the copied directory, and nothing else, at its own place below the new one, once |

## Left out

* 32-bit counters: numbers of elements, buckets and run lengths are unbounded, so wrap-around at 2^32 is not captured.
* The concrete hash function: the table is verified for every function from paths to numbers, and hash values are not cut to 32 bits.
* uthash's out-of-memory and bloom-filter branches, the variants without `decltype`, and `HASH_SELECT`.
* The table pointer that every element holds: the table record and its buckets are fields of the index, kept once.
* Sockets, threads, logging, printing, and error returns of `connect`, `send`, `recv`, `fopen` and `write`: replies and the outcome of a list fetch are inputs, and the relay has no transfer errors.
* Reply buffers: the `storageserverreply` of CREATE with fewer than three servers is not zeroed before it is compared with `-1`; the model compares the reply alone.
* deleteDirectory has no return statement at its end: success is read as "not -1", as its caller does.
* Message framing: the handshake's messages keep their boundaries, the path that a COPY sends ahead of its data arrives by itself, and receive buffers start zeroed; the first `server_reply` of update_list_of_accessiblepaths is not zeroed in the source.
* Concurrent access to the index without a lock: operations are atomic, and replies to a creation are interleaved one whole handler at a time.
* Fixed buffers: paths longer than 100 or 1000 characters, more than 500 paths a server, and a LISTALL response over 40960 bytes overflow in the source and have no counterpart here.
* A listing that exceeds its array: the limits of 1000 are in the model, but writing past the end of an array is not.
* DELETE's own reply from the storage server, and what `stat` leaves in its buffer when it fails.
* `readdir` during removal: the entries of a directory are read before the first is removed, in any order.
* Symbolic links, permissions other than a set of positions that cannot be removed, and file contents in the tree.
* The LRU cache with capacity 0 (the source uses a freed node), freeing the cache, and the lookup in CREATE's cache, which nothing ever fills.
* READ, WRITE and GETSIZE, zip and unzip, `get_path_ss`, `serializeStorageServer`: foreign calls or unused code.
* The receiver of a directory copy is not part of this model, because the repository has none.

# Zif: a verified model of its DHT and of mirroring

Zif peers find each other through a Kademlia-style distributed hash table and copy each other's lists of
posts. This project models the parts of Zif that carry that: the routing table and network database of a
peer, the search for the peers closest to an address, resolving an address over the network, the map of who
seeds for whom, the handshake that opens a connection, the rate limiter, and the whole path of a mirror from
one post table to another. Everything is in Dafny; `dafny verify dfyconfig.toml` checks it all.

## How the model is laid out

| files | part of Zif |
|---|---|
| `Address.dfy` | addresses, their distance and the bucket it selects |
| `Recency.dfy`, `RoutingTable.dfy` | buckets as bounded most-recent-first lists, over any kind of key |
| `Closest.dfy`, `Repeats.dfy`, `Order.dfy`, `Ascent.dfy`, `Capacity.dfy` | what `FindClosest` answers, when it repeats itself, in which order and how completely it answers, how large a table can get |
| `NetState.dfy` | the database of a peer as a value, its operations, and every run of them |
| `Slices.dfy`, `Walks.dfy`, `NetDB.dfy`, `Dht.dfy` | the same database as an object: arrays shifted in place, SQL tables as fields |
| `NetMap.dfy` | the walk that maps the network |
| `Resolve.dfy` | the budgeted search for an address |
| `Decimal.dfy`, `Delimited.dfy`, `Chunks.dfy` | numbers as text, delimited fields, records cut into pieces |
| `Posts.dfy`, `PieceStream.dfy`, `Rereading.dfy` | posts and pieces, printed, hashed and parsed back, and what else a hashed text can be read as |
| `PostDatabase.dfy`, `Mirroring.dfy` | the post table, the two-level hash check and the mirror |
| `Handshake.dfy`, `Limiter.dfy` | the handshake as two processes over channels, the token bucket |
| `Options.dfy` | the option type |

Operations that change state in the source are methods here, with the same loops and branches, each proved
against a function of the old state; the laws are then proved of those functions over all inputs and all
runs. Modules about buckets, closest peers and the network database are generic in the key; `Dht.dfy` makes
the keys 20-byte addresses and the bucket of a key the one its distance selects.

## Main results

* Over every run of inserts, queries and searches, each bucket of the routing table is exactly the first 20
  of the distinct addresses of that distance, ordered by last touch (`RunBucketIsMostRecent`); the table
  never holds more than 3132 addresses (`RunFits`).
* `FindClosest` queries the buckets it is scanning, and each query moves the address it found to the front
  of the array being scanned. The answer is nevertheless determined: a scan of n addresses reads positions
  0, 2, 3, ..., n-1, n-1 of the bucket and leaves all but the first two reversed, and those two last. From
  this follow the exact length of the answer, that it only permutes buckets, that it misses an address of the
  target's own bucket exactly when that bucket holds more than ten (`OwnBucketIsCovered`), and exactly when
  it repeats an address (`AnswerRepeats`).
  It has every stored address exactly when the table is small and its other buckets hold at most two
  (`AllAnsweredExactly`).
* A comment (localpeerhandlers.go:25-27) promises the closest peers ordered by distance. Buckets are totally
  ordered by distance to a target: of two, the lower is the nearer exactly when the target's own distance has
  that bit set (`NearerIsCloser`). The walk alternates between buckets below and above the target's instead, so it
  can answer only farther addresses and no closer one (`FartherAnsweredInstead`). No address is answered before,
  or instead of, one from a nearer bucket exactly when every non-empty bucket nearer than a reached one comes
  before it in the walk and holds at most two addresses, the target's own aside (`NearestFirstExactly`).
  With two, or four to eighteen, addresses in the target's bucket no answer is in ascending distance, whatever the
  distances are, because the second scan comes back to an address already passed (`NeverAscending`). When an answer
  is in ascending distance is stated exactly, bucket by bucket (`AscendingByDistance`). Every table that satisfies
  the invariant occurs (`EveryStateOccurs`).
* The network map terminates on every graph, cyclic or not, and lists the root and everything reachable from it,
  each once except that a root reachable from itself is listed twice (`MapFrom`).
* Whatever remote peers do, resolving an address ends after at most six contacts; whom it asks is determined by
  what came before, and the rows it leaves are exactly those there were, those of verified introductions and
  that of a verified answer (`Resolve`).
* Whatever a peer sends, the pieces a mirror keeps once it has got past the signed root have the hashed texts of
  the publisher's, or two texts are named on which the hash function collides. If none of these pieces holds the
  delimiter, which the source accepts in every text, a follower that held the first rows of the publisher's table,
  or none, keeps them and adds the rest of the pieces, ids included and only seed counts free; and if the rows it
  held are without it, only then (`MirrorIsSound`). Conclusions are stated with explicit collisions because no
  function into 32 bytes is injective.
* A mirror by such a follower, with no delimiter in the rows it held, that ends as complete has all the posts
  exactly when none of them holds the delimiter and the answer could be read as a gzip stream, or there was
  nothing left to mirror (`CompleteIsWhole`): an answer that cannot be read counts as zero pieces, all of which match (`CompleteButEmpty`), and a post with the delimiter can pass
  for other posts (`TwoForOne`). Some answer completes the mirror of a table without a collision exactly when
  the hashed text of each piece reads, in eights, as posts that a stream can deliver (`CompletableExactly`).
* The text a list of posts is hashed by identifies it among all lists, seed counts aside, exactly when it is empty
  or a single post without the delimiter (`HashTextIdentifiesList`); among posts that a stream can deliver,
  exactly when it does not hold the delimiter or does not read in eights (`PassesForOthersExactly`).
* Pieces cut from the answer to a request equal the serving table's own pieces for every range of pieces,
  exactly when no text in the range holds the delimiter (`ServedPieces`). A stream that breaks off at any
  character gives exactly the posts that arrived in full (`CutStream`).
* A follower that holds at most 1000 of a publisher's posts, none with the delimiter, completes a mirror of it
  with an equal table exactly when none of the publisher's posts holds the delimiter. With more than 1000 but
  not all, it stops at the first piece, whatever the texts hold, because pieces are asked for from the
  follower's last one on and compared with the list from its start (`MirrorPublisher`).
* Every interleaving of the handshake makes progress and ends; both ends succeed if both would accept each
  other, and otherwise neither does (`Progress`, `Terminates`, `Outcome`).

## Model

| member | source | states |
|---|---|---|
| Addresses.Less | dht/address.go:130-139 | the loop decides the order of the first differing byte, which `LessIsNumeric` shows to be numeric order |
| Addresses.LessIsNumeric | dht/address.go:130-139 | byte order on equal lengths is the order of the big-endian values, both ways |
| Addresses.Xor | dht/address.go:141-150 | the buffer filled by the loop is the bytewise exclusive or, itself fixed bit by bit by `BitXorAt` |
| Addresses.BitXorAt | dht/address.go:141-150 | bit i of an exclusive or is set exactly when the bits of the two numbers differ |
| Addresses.LeadingZeroes | dht/address.go:155-166 | the nested loops find the bucket index of an address, 159 for a zero distance included |
| Addresses.IndexIsInterval | dht/address.go:155-166 | index k < 159 exactly for values in [2^(159-k), 2^(160-k)), and 159 exactly for 0 and 1 |
| Addresses.BucketTriangle | dht/address.go:141-166 | if a is in a lower bucket than b then their own distance has a's index; in one bucket below 159 it has a higher one |
| Addresses.OwnBucketIsCloser | dht/netdb.go:557-565 | an address in the target's bucket is strictly closer to the target than one in any other bucket |
| Addresses.LowerBucketIsCloser | dht/address.go:130-166 | of two addresses in different buckets the one in the lower is strictly closer to a target exactly when the target's own distance has the bit of that bucket set, and strictly farther otherwise |
| Addresses.BucketIndex | dht/netdb.go:170 | the two loops together give the bucket that the distance to the own address selects |
| Recency.RecentIsOrderedByLastTouch | dht/netdb.go:167-199 | in the unbounded list one address comes before another exactly when its last touch is later |
| Recency.TouchAllRefines | dht/netdb.go:167-199 | the list bounded at every step is the first so many of the unbounded one |
| Recency.TouchPermutes | dht/netdb.go:178-196 | touching an address that is there only permutes a bucket |
| RoutingTable.TouchAllKeepsTable | dht/netdb.go:167-199 | every touch keeps addresses in their bucket, distinct, and buckets within 20 |
| RoutingTable.BucketHoldsMostRecent | dht/netdb.go:167-199 | after any history of touches, bucket i is the 20 most recent distinct addresses of that index |
| RoutingTable.TouchingResidentsPermutes | dht/netdb.go:414-418 | touching only addresses that are there evicts nothing from any bucket |
| RoutingTable.WellFormedOccurs | dht/netdb.go:167-199 | every well-formed table is what an explicit history of touches leaves |
| Closest.AfterScanReverses | dht/netdb.go:541-555 | querying a bucket while it is scanned leaves all but its first two addresses reversed, and those two last |
| Closest.WalkLength | dht/netdb.go:567-613 | the outward walk makes as many queries as the table has addresses, plus the own bucket's once more |
| Closest.ClosestIsResident | dht/netdb.go:557-613 | the answer has min(20, table size + own bucket size) addresses, all resident |
| Closest.OwnBucketIsCovered | dht/netdb.go:557-613 | every address of the target's bucket is answered exactly when it holds at most 10 |
| Repeats.AnswerRepeats | dht/netdb.go:557-613 | no address is answered twice exactly when the own bucket is empty and no bucket of three or more is scanned to its end |
| Ordering.NearestFirstExactly | localpeerhandlers.go:25-27 | no address is answered before, or instead of, one from a nearer bucket, above or below the target's, exactly when for every reached bucket each non-empty nearer one other than the own comes before it in the walk and holds at most two addresses |
| Ordering.AllAnsweredExactly | dht/netdb.go:557-613 | every stored address is answered exactly when the table and the own bucket once more make at most 20 and no other bucket holds more than two |
| Ordering.FullBucketHides | dht/netdb.go:567-613 | a full bucket that nothing comes before in the walk is answered, and nothing else |
| Ascent.NeverAscending | localpeerhandlers.go:25-27 | with 2, or 4 to 18, addresses in the own bucket the answer is never in ascending distance, whatever the distances |
| Ascent.AscendingExactly | localpeerhandlers.go:25-27 | the answer is in ascending distance exactly when the own bucket has at most one address, or three in one given order, or at least 19 that its scan meets in order, and beyond it the answered part of each scan is in order, no bucket above is answered after one below, and all answered buckets above but the last belong to set bits of the target's distance |
| Capacity.BucketFits | dht/netdb.go:167-196 | a bucket holds at most 20 addresses, and buckets 155 to 159 at most 16, 8, 4, 2 and 2, for want of addresses with that index |
| Capacity.TableFits | dht/netdb.go:141-149 | at most 3132 addresses in a table, and full buckets have index at most 154 |
| Capacity.FullBucketBeatsTheRest | dht/netdb.go:557-565 | all of a full bucket's answer is strictly closer to the target than anything stored elsewhere |
| NetState.StepKeeps | dht/netdb.go:309-420 | every operation keeps the invariant: table well formed and stored, row ids distinct within 1..n, links between known rows |
| NetState.RunKeeps | dht/netdb.go:309-420 | the invariant holds after every run from a state that satisfies it |
| NetState.OpenedKeeps | dht/netdb.go:34-138 | a database opened on a file whose ids count up from one and whose links join its rows satisfies the invariant |
| NetState.AskingOnlyTouches | netmap.go:37 | queries change nothing but the routing table, by their touches, so the graph stays as it is while it is walked |
| NetState.EveryStateOccurs | dht/netdb.go:373-420 | every state that satisfies the invariant is reached from its rows and links by a run of queries |
| NetState.RunBucketIsMostRecent | dht/netdb.go:167-199 | after every run of operations on an opened database, each bucket is the 20 most recently touched addresses of its index |
| NetState.StepLeads | dht/netdb.go:309-420 | a verified insert, and a query that finds its address, leave that address first in its bucket; an insert that does not verify and a query that finds nothing change nothing |
| NetState.RunRows | dht/netdb.go:309-420 | after every run, a row exists exactly for addresses that had one or got a verified insert, and holds the fields of the last such insert or those it had |
| NetState.SeedsMirrorSeeding | dht/netdb.go:450-512 | y is among the seeds of x exactly when x is among what y is seeding |
| NetState.AddLinksExact | dht/netdb.go:242-274 | registration adds exactly the pairs before the first with an unknown peer |
| NetState.FirstInsertLinks | dht/netdb.go:309-339 | a first insert adds exactly the pairs before the first unknown peer, seeding before seeds, and nothing else |
| NetState.InsertedLinks | dht/netdb.go:242-339 | after the verified insert of a new address, a peer is a seed for another exactly when it was, or the entry's seeding list names it before its first unknown peer, or that list is all known and the entry's seeds name it before their first unknown one |
| NetState.InsertedEntryComesBack | dht/netdb.go:309-512 | a new entry whose peers all have rows is read back with the fields, seeding and seeds it was inserted with |
| NetState.SeedInserted | dht/netdb.go:276-306 | registering a seed adds that pair, if both peers are known, and no other |
| NetState.LaterInsertLinks | dht/netdb.go:309-339 | an insert of a stored address leaves the links as they are |
| NetState.RunGrows | dht/netdb.go:276-306 | over a run the seed relation only grows: a seed registered after any prefix is registered at the end |
| Slices.TouchSlice | dht/netdb.go:172-196 | search, in-place shift and prepend on the array give the touched list; the old array is left shifted |
| NetDatabase.NetDB.constructor | dht/netdb.go:34-138 | opens a file with any consistent rows and links: those rows and links, an empty table, and a valid database |
| NetDatabase.NetDB.InsertIntoTable | dht/netdb.go:167-199 | the object's buckets become those of the touched table; other buckets keep their arrays |
| NetDatabase.NetDB.InsertSeed | dht/netdb.go:276-306 | the state takes the step that registers the pair and stays valid; it fails exactly with an unknown peer |
| NetDatabase.NetDB.InsertEntrySeeds | dht/netdb.go:242-274 | the two loops with early exit register exactly the pairs before the first unknown one |
| NetDatabase.NetDB.Update | dht/netdb.go:341-370 | fields of a known row are replaced and its id kept; an unknown one changes nothing |
| NetDatabase.NetDB.InsertIntoDB | dht/netdb.go:202-240 | a new address gets the next id; a known one changes nothing |
| NetDatabase.NetDB.Insert | dht/netdb.go:309-339 | the state takes the insert step and stays valid; an entry that does not verify changes nothing; it fails exactly on a first insert with an unknown peer |
| NetDatabase.NetDB.QuerySeeds | dht/netdb.go:450-481 | lists exactly the addresses linked to the row as seeds, each once |
| NetDatabase.NetDB.QuerySeeding | dht/netdb.go:484-512 | lists exactly the addresses the row is linked to as a seed, each once |
| NetDatabase.NetDB.Query | dht/netdb.go:373-420 | an entry exactly for a stored address, with its fields and links, and that address touched; the database stays valid |
| NetDatabase.NetDB.QueryAddresses | dht/netdb.go:541-555 | the loop over an array that its own queries shift reads exactly the scan of the bucket |
| NetDatabase.NetDB.WalkLoop | dht/netdb.go:567-613 | the outward loop keeps answer and table to what the walk has queried so far, and ends with a full answer or both ends of the table passed |
| NetDatabase.NetDB.WalkOutwards | dht/netdb.go:567-613 | the walk ends with the answer for the first 20 of its queries and the table those queries leave |
| NetDatabase.NetDB.FindClosest | dht/netdb.go:557-613 | in every valid state: an entry, none missing, for each address of the specified answer in order; the state takes its step and stays valid |
| NetDatabase.NetDB.TableLen | dht/netdb.go:141-149 | the loop computes the number of addresses in the table |
| Dht.NewNetDB | dht/netdb.go:34-138 | a database keyed by addresses, opened on any consistent rows and links, with the bucket of an address given by its distance to the peer's own |
| Dht.RunFits | dht/netdb.go:141-149 | over every run at most 3132 addresses, and full buckets only up to index 154 |
| Dht.RunFullBucketIsClosest | dht/netdb.go:557-565 | after every run, the answer from a full bucket beats every address stored elsewhere |
| Dht.RunFindClosest | dht/netdb.go:541-613 | after every run, the exact length of the answer, all of it resident and stored; rows, links and the contents of every bucket stay |
| Dht.NearerIsCloser | dht/address.go:130-166 | for two addresses in any different buckets, the order of the buckets by the bits of the target's distance is the order of their distances, both ways |
| Dht.DistanceIsAimed | dht/address.go:155-166 | the bits of a target's distance are clear before its bucket and set at it |
| Dht.FartherAnsweredInstead | localpeerhandlers.go:25-27 | with a full bucket that nothing comes before in the walk, every answered address is strictly farther than every address in every nearer bucket, and none of those is answered |
| Dht.LeftHidesRight | localpeerhandlers.go:25-27 | one concrete table in which twenty addresses from below the target's bucket are answered, each strictly farther than one stored above that is not |
| Dht.RightHidesRight | localpeerhandlers.go:25-27 | one concrete table in which twenty addresses from above the target's bucket are answered, each strictly farther than one stored farther up that is not |
| Dht.LopsidedOccurs | dht/netdb.go:373-420 | a run of queries reaches tables of that kind |
| Dht.RunNeverAscending | localpeerhandlers.go:25-27 | after every run, with 2 or 4 to 18 addresses in the target's bucket, the answer is not in ascending distance to the target |
| Dht.AscendingByDistance | localpeerhandlers.go:25-27 | the condition of `AscendingExactly` decides whether the answer is in ascending distance to the target, for every table and target |
| Dht.RunNearestFirst | dht/netdb.go:557-613 | after every run, answers come nearest bucket first exactly when the sizes of the buckets allow it |
| NetMap.StoredGraphIsClosed | netmap.go:36-41 | the entries of any database state only seed for stored addresses, so the walk never meets a missing one |
| NetMap.Walker.CreateMap | netmap.go:34-65 | one link and what lies behind it: marks grow only by reachable nodes and their links, what is listed is exactly what was newly marked, each node after one that leads to it, and exactly the marked nodes have been queried, once for the link and once for every peer a listed node is seeding |
| NetMap.Walker.CreateNetMap | netmap.go:24-76 | the recursive walk terminates on every graph and completes every node it marks |
| NetMap.WalkIsExact | netmap.go:24-76 | when the walk is over, marked nodes are exactly the reachable ones, and marked links exactly the links into them and the root |
| NetMap.MapFrom | netmap.go:24-76 | from empty marks: the nodes are the root and everything reachable, each once and after one that leads to it, except that a root reachable from itself is listed twice; links go from what an address is seeding to that address, for the root and all reachable ones, none repeated; the database is asked for the reachable addresses and no others, as often as the lists of the walked entries are long |
| NetMap.LinksHaveNodes | netmap.go:44-62 | both ends of every link are listed nodes |
| NetMap.LinkKeyIsInjective | netmap.go:44-47 | concatenating two 20-byte addresses loses nothing, so link keys do not clash |
| Resolve.Resolver.ResolveStep | peermanager.go:411-465 | for every behaviour of remote peers: it terminates, contacts and budget add up to six, the limit is hit exactly by an attempt without budget and with somebody to ask, an entry is returned exactly when the last contact gave one, each peer asked is the one due, and it never returns neither an entry nor an error |
| Resolve.Resolver.AskNamed | peermanager.go:450-464 | the loop over the named peers never gets past the first |
| Resolve.Resolver.Search | peermanager.go:382-405 | resolved exactly when some contact delivered the entry looked for, which is then the last contact; failed only when nobody is left to ask; nothing is attempted after the limit |
| Resolve.Resolve | peermanager.go:354-408 | starts from the entries of the closest addresses; at most six contacts, each with the peer due; what is returned has the requested address; afterwards exactly the addresses that had a row, that of every verified introduction and that of a verified answer have one, with the fields of the answer, else of the last introduction, else as before; the database object ends in the state after one query, one search and these inserts, and stays valid |
| Resolve.NamedIsNext | peermanager.go:450-453 | a peer that a contact named first is the next one asked |
| Resolve.OthersAreClosest | peermanager.go:382-385 | all other peers asked are the closest ones, in order and none left out |
| Resolve.LastIntroduction | peer.go:152 | what a row is left with is the last verified introduction of its address, and without one nothing is written |
| Resolve.PerformInserts | peer.go:152 | the inserts made on the way take the database through their steps in order and keep it valid |
| Decimal.AtoiOfItoa | proto/client.go:482-491 | every 64-bit integer reads back from its decimal text |
| Decimal.ItoaInjective | data/post.go:56-74 | different integers print differently |
| Decimal.NumberOfConcat | proto/client.go:482-491 | a digit string read as a number is its front shifted by as many tens as there are digits behind, plus those |
| Decimal.AtoiExactly | proto/client.go:482-491 | a text reads as an integer exactly when it is digits after at most one sign and within 64 bits, and then as that integer |
| Decimal.ItoaIsShortest | data/post.go:56-74 | an integer prints with a minus exactly if negative, and without leading zeroes |
| Delimited.TokensOfTerminated | data/errors.go:19-30 | reading delimited fields undoes writing them, whatever follows |
| Delimited.TokensOfCut | data/errors.go:19-30 | of a text of delimited fields that breaks off anywhere, exactly the fields there in full are read |
| Delimited.TerminatedInjective | data/post.go:55-80 | a text of delimited fields determines the fields and their number |
| Delimited.PlainIsUnmistakable | data/post.go:55-80 | plain fields cannot be mistaken for any other fields of the same number, plain or not |
| Chunks.PiecesOfStream | proto/client.go:506-559 | cutting n pieces from a stream gives the first n pieces of its records: the stop record ends a partial piece, later ones are empty, and nothing after n full pieces is read |
| Posts.WritePost | data/post.go:55-80 | the writer receives the fields in order, each ended by the separator, then the terminator |
| Posts.TextOfPost | data/post.go:55-80 | the text of a post written out, field by field, with and without the two counts |
| Posts.HashedTextDecides | data/piece.go:23-44 | the text a piece feeds its hash is equal for two lists of posts without the delimiter exactly when the posts are, seed counts aside |
| Posts.HashTextIdentifies | data/post.go:55-80 | a post's hashed text belongs to no other post, seed counts aside, exactly when none of its texts holds the delimiter |
| Posts.HashTextIdentifiesList | data/piece.go:23-44 | the hashed text of a list of posts belongs to no other list exactly when it is empty or a single post without the delimiter |
| Rereading.RereadableExactly | data/piece.go:23-44 | some posts that a stream can deliver have the hashed text of a piece exactly when its fields, in eights, have canonical decimals where numbers go, no id -1, and make at most 1000 posts |
| Rereading.PassesForOthersExactly | peer.go:474-481 | other posts can pass for a piece exactly when it holds the delimiter and its hashed text so reads |
| Posts.DelimiterBreaksHashing | data/post.go:55-80 | two given posts, one with the delimiter in its info hash and one in its title, feed the hash alike |
| Posts.Piece.Add | data/piece.go:23-36 | refused exactly past 1000 stored posts; otherwise the hash is fed, and stored posts and fed text stay in step |
| Posts.Piece.Rehash | data/piece.go:46-57 | the running hash of a piece whose posts are all stored is the hash computed anew |
| PieceStream.ErrorReader.ReadString | data/errors.go:19-30 | takes the next field, or fails, yields nothing and leaves nothing to read |
| PieceStream.ReadPost | proto/client.go:516-536 | reads one post, or stops at the id -1 or at a post that is not there in full; `PostRoundTrip`, `SlippedIsReceived` and `CutStream` say which posts these are |
| PieceStream.ReadPieces | proto/client.go:506-559 | as many pieces as asked for, each with the posts of the specified parse and a hash fed with exactly those |
| PieceStream.SentinelStops | localpeerhandlers.go:342 | the last record stops a piece, and the nine fields left of it hold no further post |
| PieceStream.SentinelText | localpeerhandlers.go:342 | the text of the last record |
| PieceStream.CutStream | proto/client.go:506-559 | a stream that breaks off at any character gives exactly the posts that arrived in full, cut into pieces as if there had been no others |
| PieceStream.SlippedIsReceived | proto/client.go:482-536 | a post with the delimiter in its title and no number after it is received with everything behind the delimiter moved up one field and a size of zero |
| PieceStream.PostRoundTrip | data/post.go:55-80 | a printed post reads back exactly when no text holds the delimiter and its id is not -1 |
| PieceStream.PiecesArePlain | proto/client.go:506-559 | no parsed post holds the delimiter, whatever the stream |
| PieceStream.PiecesAreReceived | proto/client.go:506-559 | every parsed piece has at most 1000 posts, without the delimiter, of 64-bit numbers, none with the id -1 |
| PieceStream.AnyPieces | proto/client.go:506-559 | all lists of such pieces come out of some stream |
| PieceStream.FirstKeepsId | proto/client.go:516-517 | the first post of a stream keeps its id, whatever its texts hold |
| PostDatabase.InsertAllKeeps | data/sql.go:29-39 | every table reached by inserts has ids 1..n and no info hash twice |
| PostDatabase.CopyIsExact | data/sql.go:29-39 | inserting a list into an empty table reproduces it, ids included, exactly when the list has ids 1..n and no info hash twice |
| PostDatabase.SelectIsSlice | data/database.go:291-320 | with ids 1..n a paged query is a slice of the table |
| PostDatabase.SelectOutside | data/database.go:291-320 | a negative id starts at the first row, and a negative limit goes on to the last |
| PostDatabase.RequestedIsSlice | data/database.go:325-331 | a request for pieces from a first one on is answered with a thousand rows a piece and as many more as the number of the first piece |
| PostDatabase.ServedPieces | localpeerhandlers.go:302-350 | for every first piece and length: what is parsed from the answer is, piece by piece, what `QueryPiece` returns, exactly when no text in the range holds the delimiter; the extra rows of the limit never matter |
| PostDatabase.Database.PostCount | data/database.go:361-367 | the largest id, which is the number of rows when ids are 1..n |
| PostDatabase.Database.InsertPieces | data/database.go:85-154 | with a nil at the end, the table equals that of one insert per post in order, wherever transactions end; without one, exactly the batches of 99 that another piece followed are in the table |
| PostDatabase.CommittedExactly | data/database.go:85-154 | of pieces taken from an open channel whole batches of 99 are committed, and at least one piece and at most 99 are not |
| PostDatabase.Database.QueryPiece | data/database.go:291-320 | the piece's hash is fed with exactly the rows of the page, and they are stored exactly if asked |
| PostDatabase.Database.HandlePiece | localpeerhandlers.go:338-345 | the answer is the text of the rows of `QueryPiecePosts` and the final record |
| Mirroring.Collection.Rehash | data/collection.go:105-111 | the root hash is fed with every whole digest of the list and nothing else |
| Mirroring.Verify | proto/messages.go:58-70 | a slice out of range exactly when 32 bytes for each of the size exceed the list up to its capacity; otherwise accepted exactly when the digests it covers hash to the root |
| Mirroring.ListSoundness | proto/messages.go:58-70 | an accepted list is the publisher's, or the two are a collision |
| Mirroring.PieceSoundness | peer.go:474-481 | a piece accepted against the publisher's list has the text of the publisher's, and is it, seed counts aside, exactly when that holds no delimiter; or the two texts are a collision |
| Mirroring.CheckPieces | peer.go:474-491 | the loop passes on exactly the pieces before the first that does not match, and never slices out of range |
| Mirroring.Mirror | peer.go:437-510 | each outcome happens exactly under its condition; the pieces are asked for from the one that holds the last post held, the first if none is; complete means that all pieces that arrived matched and were inserted, a mismatch leaves whole batches of matched pieces; an answer that is no gzip stream is no pieces |
| Mirroring.MirrorIsSound | peer.go:437-510 | for every publisher, follower that holds its first k rows, list, size and answer: the pieces kept have the texts of the publisher's first ones; without the delimiter in these the rows held stay and the rest of the pieces follow them, seed counts free; with none in the rows held, only then; or a collision is exhibited |
| Mirroring.CompleteIsWhole | peer.go:475-507 | a completed mirror by a follower that holds the first k rows, none with the delimiter, has all the publisher's posts exactly when the answer could be read and none holds the delimiter, or nothing was missing; or a collision is exhibited |
| Mirroring.NeverWhole | proto/client.go:506-559 | no stream leaves a copy equal, seed counts aside, to a table that holds the delimiter |
| Mirroring.CompletableExactly | peer.go:475-507 | some answer completes the mirror of a table without a collision exactly when the hashed text of each of its pieces reads as posts that a stream can deliver |
| Mirroring.TwoForOne | peer.go:475-507 | for every two deliverable posts: a publisher of the one post with their joined text, and an answer with the two, which completes without a collision |
| Mirroring.UnreadableCompletes | proto/client.go:497-502 | without a gzip stream to read, every transfer completes and inserts nothing |
| Mirroring.CompleteButEmpty | proto/client.go:497-502 | a publisher of one post, an accepted list and an unreadable answer: complete, with an empty table |
| Mirroring.FollowerCompletes | peer.go:455-507 | a follower with up to 1000 of the posts of a publisher without the delimiter sees every piece match and ends with the publisher's table, ids included |
| Mirroring.FollowerIsStuck | peer.go:455-481 | a follower with more than 1000 but not all posts fails at the first piece, whatever the texts hold, or a collision is exhibited |
| Mirroring.PublisherListAccepted | localpeerhandlers.go:282-285 | a publisher's list with the size it is sent with passes the check against the root computed from it |
| Mirroring.MirrorPublisher | peer.go:437-510 | up to date when nothing is missing; with up to 1000 held posts, none with the delimiter, complete with an equal table exactly when the publisher's hold none; beyond that stopped at piece 0 with the table unchanged, or a collision is exhibited |
| Handshaking.ClientKeeps | proto/streammanager.go:122-155 | every step of the opening end, in every order with the other's, keeps both channels equal to what is sent and not read of two fixed scripts, or leads to a refusal |
| Handshaking.ServerKeeps | proto/handshake.go:15-36 | the same for the accepting end |
| Handshaking.ClientVerifies | proto/handshake.go:39-139 | reading the other's header or signature either verifies it or closes the connection |
| Handshaking.ServerRefusesSignature | proto/handshake.go:122-132 | a signature that does not verify is answered with No, which is all the other end then finds to read, and the connection is closed |
| Handshaking.ClientRefusesSignature | proto/handshake.go:122-132 | the same at the opening end |
| Handshaking.ServerRefusesHeader | proto/handshake.go:39-75 | an entry that does not verify closes the connection with nothing sent, because the No comes after the close |
| Handshaking.ClientRefusesHeader | proto/handshake.go:39-75 | the same at the opening end |
| Handshaking.RunKeeps | proto/handshake.go:15-233 | over every schedule of both ends: either each channel holds what was sent of a fixed script and not read, with what each end knows and has verified, or one end has been refused and the other can only fail |
| Handshaking.SomeoneCanMove | proto/handshake.go:15-233 | the two ends never wait for each other |
| Handshaking.Progress | proto/handshake.go:15-233 | in every reachable state that is not final, some end can take a step, whatever either finds wrong |
| Handshaking.Terminates | proto/handshake.go:15-233 | no schedule takes more than 28 steps |
| Handshaking.SuccessMeansVerified | proto/streammanager.go:122-155 | success at either end means both were verified, and that the end holds the other's entry and capabilities |
| Handshaking.Outcome | proto/handshake.go:15-233 | a finished run has both ends successful if both accept each other, and both failed otherwise |
| Limiting.Limiter.constructor | util/limiter.go:17-26 | a new limiter holds a burst of tokens if filled and none if not |
| Limiting.Limiter.Tick | util/limiter.go:28-37 | a tick lets one that is waiting through, and otherwise adds a token unless the bucket is full, which then stays full |
| Limiting.Limiter.Wait | util/limiter.go:43-45 | a wait completes at once exactly when there is a token, and takes it |
| Limiting.TokensConserved | util/limiter.go:17-45 | over every run tokens stay within the burst, and waits plus tokens left are at most tokens at the start plus ticks, with equality while nothing overflows, and at least the smaller of that and the burst |
| Limiting.WindowBound | util/limiter.go:17-45 | in every window of every run, completed waits number at most the burst plus the ticks in the window |
| Limiting.BurstIsServed | util/limiter.go:11-16 | a bucket with n tokens serves n waits at once, so the bound is met |

## Assumptions

* Addresses have 20 bytes, and their printed form stands for them one to one.
* SQL statements succeed; a new row's id is one more than the largest; a query on the id returns rows in the
  order of their ids. Text columns are declared STRING (data/sql.go:3-15), which gives them numeric affinity:
  text that looks like a number may come back in another form, "007" as "7", and is excluded. The same holds
  for the texts of the entry table (dht/sql.go:27-45). Full text indexes are not part of this model.
* A received hash list is given up to the capacity of its slice, which is what bounds a slice of it.
* What the hash functions, signatures and `Entry.Verify` compute is a parameter.
* The order in which a database lists seeds is left open.
* Ids, counts and positions do not overflow; numbers that are printed and parsed are 64-bit.
* A negative limit in a query is no limit, as in SQLite.
* A piece on the channel between download and insertion is given by its posts. The table after a mirror is
  the one once everything sent has been dealt with.
* What the root of a network map is seeding has rows; the walk would dereference nil on an address without one.
  Entries read back from a database always satisfy this.
* What comes of each contact while resolving is a parameter that depends on the number of contacts made before, the
  peer and the address. It includes answers with neither an entry nor an error, which `Client.Query` (proto/client.go:219-244) never
  gives, so the branch that asks further peers (peermanager.go:444-464) is covered though the code does not
  reach it.
* After one end has closed a connection the other may still read what was sent before, or fail at once, and
  its writes may fail or be lost.

## Left out

- Resolve.Resolve: performs the inserts of a search together at its end, because nothing reads the database in between; errors of the local database are not modelled.
- NetMap.Walker.CreateMap: reads the database as a graph of entries and records its queries; `AskingOnlyTouches` says what they do to the database.
- Mirroring.Mirror: starts from the answer to the hash list request; ping, streams, the query for the entry, saving the list and the closing registration are input and output. A request that cannot be sent yields no channel at all, on which the mirror waits for ever; that is not modelled.
- NetDatabase.NetDB.Insert: does not write the table to a file or the full text index.
- Limiting.Limiter.Wait: is modelled by whether it completes at once; Stop is not modelled.
- PostDatabase.Database.HandlePiece: answers from one given table; choosing between the own and a mirrored database is not modelled.
- `Collection.Add`, `CreateCollection` and `AddPost`: the growth test compares a byte length with a piece number (data/collection.go:84), so a hash list of several pieces is taken as given.
- `SeedManager.findSeeds`, `PeerManager.SetPeer` and its eviction: they edit the slice being ranged over, or never update the value compared, and keep no filter or recency property.
- `QueryLatest` and the preload in `NewDHT`, saving and loading the table as JSON, searching peers and posts.
- The magic number and version sent before the handshake; a nil local peer.
- `InsertPiece`: passes eight values for nine placeholders.
- `SliceDiff`, `MergeSeeds`, `ChooseCompression`, paging, `Entry.String`, announcing, the HTTP and command servers, configuration, Tor: they would only add easy members, or are input and output.

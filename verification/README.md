# Verified models of dapr components-contrib

A Dafny 4.11 project about the parts of dapr's components-contrib repository that hold their own
algorithms and protocols: the LIKE key search of two state stores, the in-memory transactional store,
the MQTT topic matcher, the ConfigMap change feed, the MongoDB filter printer and pager, the bulk
executors, the mDNS address list, and the concurrent protocols of the RabbitMQ, Redis Streams and
Pulsar components. `dafny verify dfyconfig.toml` checks everything.

| file | what it models |
|---|---|
| `Like.dfy` | LIKE patterns as a relation (section 8.5 of SQL-92), etcd's `likeMatch` and `likeLiteralPrefix` |
| `Regex.dfy` | the part of Go's regexp syntax that the repository generates: a reader of the text and a matcher |
| `LikeRegex.dfy` | the in-memory store's `likeToRegex`, and the comparison of both stores |
| `Decimal.dfy` | decimal texts as strconv prints and parses them |
| `EtcdKeysLike.dfy`, `EtcdPages.dfy`, `EtcdWalk.dfy` | etcd's `KeysLike`, what one call keeps and loses, and walks over its pages |
| `InMemoryModel.dfy`, `InMemoryStore.dfy`, `InMemoryRuns.dfy`, `InMemoryReads.dfy` | the in-memory store: its steps, the object, whole runs, and what readers see of them |
| `SortingKeys.dfy`, `InMemoryPaging.dfy` | the paired in-place sort, pages and walks of the in-memory `KeysLike` |
| `MqttTopics.dfy`, `Mqtt.dfy` | topic filters (section 4.7.1 of MQTT 3.1.1), `buildRegexForTopic`, the handler table |
| `Base64.dfy`, `ConfigMapFeed.dfy` | ConfigMap differences and the feed a subscriber folds |
| `Numbers.dfy`, `Json.dfy`, `MongoText.dfy`, `MongoQuery.dfy`, `MongoKeys.dfy`, `MongoMeaning.dfy` | numbers as Go prints and JSON reads them, a JSON reader, the filter printer, and the meaning of what it prints |
| `MongoPaging.dfy` | the query object, its skip tokens, and walks over its pages |
| `RabbitModel.dfy`, `RabbitMQ.dfy` | the connection state under the channel mutex, any number of clients |
| `RedisStreams.dfy` | pending, claimed and acknowledged messages of one stream and group |
| `Counting.dfy`, `BulkGet.dfy`, `BulkSetDelete.dfy` | the bulk executors as goroutine steps |
| `PulsarListener.dfy` | the worker pool and the closing of the consumer |
| `AddressList.dfy`, `AddressCounter.dfy` | the mDNS address list, and its counter under concurrent calls |

Code that updates state under a lock is a class whose methods are proved against functions on values;
lemmas about whole runs then speak about those functions. Goroutines and channels are step systems: a
run is any sequence of enabled steps. What comes from outside (clock, uuids, answers of servers, what
fails) is a parameter or part of a step. One `char` stands for one byte, and where the code reads runes
for one ASCII rune.

## What the proofs show about the code

These are results about the code as it is; each is a lemma below.

* Both stores find the same keys for every pattern exactly for keys without a newline, since Go's `.`
  stops there (`StoresAgree`).
* The etcd search loses keys whose create revisions tie (keys put by one transaction): the rest of a
  tie when a page ends inside it, and also a match that ties with any entry, matching or not, at the
  end of one of the windows that a call doubles through. A walk is complete if and only if none of its
  calls meets such a tie, or a match past its largest window (`WalkCompleteIff`). With a fixed page
  size a walk returns exactly what one pass over the snapshot takes (`WalkIsOnePass`,
  `WalkReturnsIff`); for page size one and for one unpaged call the condition of every single key is
  still simpler (`SingleWalkReturnsIff`, `UnpagedReturnsIff`). `LossHappens` is a whole example. With
  distinct revisions in the scanned range nothing is lost (`WalkComplete`), and a walk with page size
  one over keys that all match is complete exactly then (`SingleWalkOfAllIff`).
* A client that follows the etcd tokens with one page size makes at most one call more than there are
  full pages. It stops with an answer if and only if the last call is unpaged or its largest window is
  longer than the key range; otherwise that call is never answered (`WalkEndsIff`). An unpaged call
  silently stops after 8192 keys (`UnpagedCompleteIff`).
* With a trailing slash in `keyPrefixPath` every key comes back with a slash in front
  (`StoredKeyIsFoundIff`).
* The MQTT expression covers the standard and agrees with it exactly for filters without a wildcard in
  the last of several levels, or with `#` right after `+` (`AgreesWithStandardIff`).
* In the in-memory store a transaction is checked against the state before it, so it can differ from its
  operations one by one, in both directions (`SequentialIff`, `MultiAgreesIff`): two writes of one key
  with its etag pass (`DependentOperationsDiffer`), a first write behind the delete of an existing item
  does not; and the options of its deletes are not checked. An etag is used at most once over a run
  exactly when no transaction that succeeds names it twice (`ETagUsedOnceIff`).
* Expiry is invisible to `Get` and `BulkGet` (`ExpiryInvisible`), but not to writers: until an expired
  item is cleaned it blocks a first write, and a write or delete that names its etag is let through
  (`ExpiryVisibleToWriters`). Nor is it to `KeysLike`, which lists an expired item until it is cleaned
  (`ExpiredItemIsListed`): a page survives cleaning exactly when none of the items it is made of has
  expired (`CleanKeepsPageIff`).
* Page size zero makes an in-memory walk stand still (`CursorMovesIff`). With other page sizes it is
  bounded by what there was to list and what was written meanwhile (`WalkIsBounded`), so that only
  writes of matching keys can keep it going.
* A printed Mongo filter is read as the JSON of its tree exactly when no key needs escaping (keys are
  printed as they are) and no string holds a character that `%q` writes in Go's own way, such as `\a`
  or `\x00`; the server then takes it exactly when no group is empty (`ReadsAsIntendedIff`,
  `PrintedFilterMeansTree`). This assumes a strict reader, which takes no raw control characters in
  strings and keys; the scanner of the bson library is not part of this model and may be laxer.
* A walk over Mongo pages counts rows, so a write between two pages can lose or repeat a row that
  nobody touched: it is returned once plus the times it moved back over a page boundary minus the times
  it slipped past one (`ReturnedOnceIff`, `DeletionLosesRow`).
* With Redis redelivery switched off, a message dropped after reading stays pending and never comes
  back in the same process (`WithoutRedeliveryNoReturn`).
* An acknowledged Redis message can be handled again for two reasons. While the server has the group,
  it can be in flight later exactly if a copy of it is in flight now (`AckedReturnsIff`,
  `AckedStaysAway`), as when it is claimed while its first handler still runs (`HandledAgainAfterAck`).
  And a group that the server lost is made anew at the beginning of the stream, so that everything is
  read again (`LostGroupReadsAgain`).

## Model

| member | source | states |
|---|---|---|
| Like.LikeMatch | state/etcd/etcd.go:597-666 | for all strings the matcher answers true exactly when the LIKE relation holds, with escapes and a dangling backslash, and it terminates |
| Like.EarliestBlockSuffices | state/etcd/etcd.go:627-648 | remembering only the last percent sign is enough: the block between two of them may be taken at its earliest place |
| Like.LikeLiteralPrefix | state/etcd/etcd.go:573-593 | returns the literal characters before the first unescaped wildcard |
| Like.MatchHasLiteralPrefix | state/etcd/etcd.go:458-460 | every matching key starts with the literal prefix |
| Like.NoWildcardIsEquality | state/etcd/etcd.go:573-593 | without unescaped wildcards matching is equality with the prefix |
| LikeRegex.LikeToRegex | state/in-memory/in_memory.go:545-575 | the built text always compiles, and the expression accepts exactly the LIKE relation whose wildcards do not take a newline |
| LikeRegex.StoresAgree | state/in-memory/in_memory.go:545-575 | a key found by the in-memory store is found by the etcd store for every pattern, and they agree on all patterns exactly when the key has no newline |
| EtcdKeysLike.ScanBatch | state/etcd/etcd.go:513-548 | one batch appends the matches beyond the cursor, stops on a full page, and tracks the largest create revision |
| EtcdKeysLike.KeysLike | state/etcd/etcd.go:453-570 | errors for an empty pattern or bad token; with a page size no page is longer, and a token comes with exactly the full ones; without one there is no token; otherwise sound pages, and over any snapshot sorted by create revision, ties or not, exactly the expected page and token, given enough reads, or no answer at all when the window is exhausted |
| EtcdKeysLike.DealtBatch | state/etcd/etcd.go:511-551 | a larger batch that rescans from the start adds exactly the matches not yet dealt with, but those tied with the end of the window before |
| EtcdKeysLike.NarrowingLosesNothing | state/etcd/etcd.go:458-460 | scanning below the literal prefix selects the same entries as scanning everything |
| EtcdKeysLike.StoredKeyIsFoundIff | state/etcd/etcd.go:459-460 | a stored key is reported under its own name exactly when the configured path does not end in a slash |
| EtcdKeysLike.TokenRoundTrip | state/etcd/etcd.go:462-476 | an issued token parses back to its snapshot revision and cursor |
| EtcdKeysLike.TokenTextIff | state/etcd/etcd.go:464-476 | a token is read exactly when numbers stand before and behind its first colon |
| Decimal.PrintNatDigits | state/etcd/etcd.go:532-532 | numbers in tokens are written with the ten digits, no zeros in front |
| Decimal.ParseIntIff | state/etcd/etcd.go:471-476 | which digits, signed or not, are read as a number of 64 bits, and as which |
| Decimal.ParseIntOnly | state/etcd/etcd.go:471-476 | nothing else is |
| EtcdKeysLike.FirstCall | state/etcd/etcd.go:463-465 | a call without a token, or with an empty one, begins before all keys at the revision it finds |
| EtcdKeysLike.CapIsDoubling | state/etcd/etcd.go:559-568 | the largest window is the first doubling of the first one that reaches 8192, one read for each |
| EtcdWalk.TokensLeadOn | state/etcd/etcd.go:462-510 | each token leads the next call to the same snapshot, right behind the last key returned, whatever was written meanwhile |
| EtcdPages.FullPage | state/etcd/etcd.go:527-551 | a full page and what lies behind its token are together all matches exactly when no match up to the page end is shadowed by a window edge or beyond the largest window, and none behind ties with the last |
| EtcdPages.LastPage | state/etcd/etcd.go:553-568 | a call without a token returns all that is left exactly under the same condition |
| EtcdPages.UnpagedReturnsIff | state/etcd/etcd.go:482-568 | an unpaged call returns an entry exactly if it matches, is among the first 8192, and shares its revision with the end of no smaller window |
| EtcdPages.UnpagedCompleteIff | state/etcd/etcd.go:563-568 | an unpaged call is complete exactly when every match is such an entry |
| EtcdWalk.WalkCompleteIff | state/etcd/etcd.go:453-570 | a finished walk with any page sizes returns every matching key of the first snapshot once, in create-revision order, exactly when no call of it loses one to a tie |
| EtcdWalk.WalkComplete | state/etcd/etcd.go:453-570 | and so it does when create revisions are distinct in the scanned range |
| EtcdWalk.WalkEndsIff | state/etcd/etcd.go:489-569 | what a client asks for before its last call is no more than there is to find, for one page size at most one call more than full pages; it stops with an answer exactly when its last call is unpaged or has a largest window longer than the key range, and is else never answered |
| EtcdWalk.WalkIsOnePass | state/etcd/etcd.go:453-570 | with any fixed page size a finished walk returns exactly what one pass over the first snapshot takes, in its order, ties or not |
| EtcdWalk.WalkReturnsIff | state/etcd/etcd.go:527-551 | entry by entry, such a walk returns the matches that no window edge shadows and no page end cuts off |
| EtcdWalk.SingleWalkReturnsIff | state/etcd/etcd.go:527-551 | with page size one an entry is returned exactly if it matches, no earlier match has its revision, and it shares it with the end of no smaller window |
| EtcdWalk.SingleWalkOfAllIff | state/etcd/etcd.go:527-551 | when every key of the range matches, such a walk finds them all exactly when revisions are distinct |
| EtcdWalk.WindowEdgeLosesKey | state/etcd/etcd.go:551-551 | the only match is lost when it ties with the fourth entry, the last of the first window |
| EtcdWalk.LossHappens | state/etcd/etcd.go:551-551 | a concrete store and walk that lose a key in this way |
| EtcdWalk.TiesLoseKeys | state/etcd/etcd.go:527-530 | of two keys with one create revision such a walk returns at most one |
| InMemoryStore.Store.DoValidateEtag | state/in-memory/in_memory.go:154-179 | passes exactly when the etag given is the current one, or, without an etag, unless a first write meets an existing item |
| InMemoryModel.ETagRule | state/in-memory/in_memory.go:154-179 | an etag must be the current one; without one a first write needs the key to be free |
| InMemoryModel.ValidOptionsIff | state/request_options.go:21-68 | the option values that pass |
| InMemoryStore.Store.DoSet | state/in-memory/in_memory.go:329-344 | stores the data with a fresh etag, the next write number and its expiry; nothing else changes |
| InMemoryStore.Store.DoDelete | state/in-memory/in_memory.go:181-183 | removes the key; nothing else changes |
| InMemoryStore.Store.Set | state/in-memory/in_memory.go:269-295 | the error, in the order options, TTL, etag, marshalling, and then nothing changed; or the item stored under the key, with the request's data, and everything else as before |
| InMemoryStore.Store.Delete | state/in-memory/in_memory.go:105-124 | the error of a conditional delete, or the key gone |
| InMemoryStore.Store.Multi | state/in-memory/in_memory.go:367-430 | succeeds exactly when every operation passes its checks against the state before, and then applies everything in order; a failure changes nothing |
| InMemoryStore.Store.DoCleanExpiredItems | state/in-memory/in_memory.go:443-452 | removes exactly the items expired when the pass comes to them |
| InMemoryStore.Store.GetAndExpire | state/in-memory/in_memory.go:243-254 | answers the live view and drops the item only if it is expired now |
| InMemoryStore.Store.Get | state/in-memory/in_memory.go:185-207 | whatever runs between its two locks, the answer is the live view at an instant of the call |
| InMemoryStore.Store.BulkGet | state/in-memory/in_memory.go:209-241 | every answer is the live view of its key when the clock was read for it |
| InMemoryStore.Store.Collect | state/in-memory/in_memory.go:486-496 | collects each matching key once with its item, in any table order |
| InMemoryStore.Store.Sorted | state/in-memory/in_memory.go:502-502 | sorting gives the one listing by write number |
| InMemoryStore.Store.KeysLike | state/in-memory/in_memory.go:473-543 | the errors, the silent empty answer, and otherwise exactly the page at the token's cursor with the token of the first key left out |
| SortingKeys.SortingKeys.Swap | state/in-memory/keys.go:29-36 | exchanges the two rows, keys and items together |
| SortingKeys.SortingKeys.Stable | state/in-memory/keys.go:21-36 | sorting through Less and Swap alone ends sorted by write number with the same rows |
| InMemoryPaging.SortedRowsAreListing | state/in-memory/in_memory.go:491-502 | whatever order the table was read in, the sorted rows are the matching keys strictly by write number |
| InMemoryPaging.ListingPage | state/in-memory/in_memory.go:504-542 | cutting the listing at the cursor and the page size gives the keys of one interval of write numbers |
| InMemoryPaging.WalkIncreases | state/in-memory/in_memory.go:473-543 | across pages the write numbers returned strictly increase, whatever is changed in between |
| InMemoryPaging.WalkReturnsUntouched | state/in-memory/in_memory.go:473-543 | a matching key untouched over the walk is returned |
| InMemoryPaging.WalkExactlyOnce | state/in-memory/in_memory.go:473-543 | over any interleaving of other steps a finished walk returns it exactly once |
| InMemoryPaging.ClientWalkIsWalk | state/in-memory/in_memory.go:504-532 | a client that hands back the token texts of KeysLike walks through just those pages |
| InMemoryPaging.ClientWalkExactlyOnce | state/in-memory/in_memory.go:473-543 | the keys such a client has collected hold each untouched matching key exactly once |
| InMemoryPaging.WalkReturnsStored | state/in-memory/in_memory.go:491-496 | every key returned matches the pattern |
| InMemoryPaging.CursorMovesIff | state/in-memory/in_memory.go:525-537 | the cursor moves on exactly when the page size is not zero |
| InMemoryPaging.PageToList | state/in-memory/in_memory.go:525-537 | a page takes its keys off what is to be listed, and is the last exactly when the rest fits |
| InMemoryPaging.WalkIsBounded | state/in-memory/in_memory.go:473-543 | the full pages of a walk hold no more than what there was to list and the matching writes made meanwhile |
| InMemoryPaging.ExpiredItemIsListed | state/in-memory/in_memory.go:491-496 | an expired item that readers of its key do not see is listed until it is cleaned |
| InMemoryPaging.CleanKeepsPageIff | state/in-memory/in_memory.go:443-452 | a page survives cleaning exactly when no matching item within its bounds has expired |
| InMemoryPaging.ReplyIsPage | state/in-memory/in_memory.go:504-542 | an answer is the page at the token's cursor, and the token text it carries parses back to the cursor of the next |
| InMemoryRuns.RunKeepsInv | state/in-memory/in_memory.go:329-344 | over every run write numbers stay distinct and below the counter, and etags distinct and issued |
| InMemoryRuns.StepSpends | state/in-memory/in_memory.go:154-179 | a step that uses an etag finds it current and it is never current again |
| InMemoryRuns.ETagUsedOnceIff | state/in-memory/in_memory.go:105-179 | over every run at most one conditional write or delete with a given etag succeeds, exactly when no transaction that succeeds names it twice |
| InMemoryRuns.ETagUsedOnce | state/in-memory/in_memory.go:105-179 | and so it is when transactions are on distinct keys |
| InMemoryRuns.SequentialIff | state/in-memory/in_memory.go:367-430 | operations one by one succeed exactly when the first on each key is allowed before, each later one may follow the one before it, and all options and values are valid; the store is then the transaction's |
| InMemoryRuns.MultiAgreesIff | state/in-memory/in_memory.go:367-430 | exactly when a transaction that succeeds also succeeds one by one, and the other way round, with the same store |
| InMemoryRuns.MultiIsSequential | state/in-memory/in_memory.go:367-430 | for operations that do not depend on earlier ones (distinct keys in particular) running them one by one succeeds exactly when the transaction does and the unchecked delete options are valid, with the same store |
| InMemoryRuns.DistinctIsIndependent | state/in-memory/in_memory.go:403-417 | operations on distinct keys do not depend on each other |
| InMemoryRuns.DependentOperationsDiffer | state/in-memory/in_memory.go:403-417 | two writes of one key with its etag pass in a transaction but not one by one |
| InMemoryRuns.ExpiryInvisible | state/in-memory/in_memory.go:185-254 | cleaning and expiring change no live view, which is what Get and BulkGet answer, now or later |
| InMemoryRuns.OtherStepsInvisible | state/in-memory/in_memory.go:105-124 | only a write or delete of a key changes its live view |
| InMemoryRuns.ExpiryVisibleToWriters | state/in-memory/in_memory.go:157-179 | exactly when cleaning changes what an operation may do, for every operation |
| InMemoryReads.ReadsLastWrite | state/in-memory/in_memory.go:185-344 | over every run a reader gets the value, etag and expiry of the last write of the key that succeeded, alone or in a transaction, and nothing if it has expired or was deleted since |
| Mqtt.BuildRegexForTopic | pubsub/mqtt3/mqtt.go:452-497 | empty exactly without a wildcard at a level start; all slices in bounds; the text always compiles and for valid filters accepts exactly the language Accepted |
| Mqtt.BodyTextParses | pubsub/mqtt3/mqtt.go:439-442 | what the scan writes reads back as the intended expression for every topic name, so compiling cannot panic |
| Mqtt.BodyReAccepts | pubsub/mqtt3/mqtt.go:463-488 | the expression accepts, level by level, what the filter's levels accept, a last wildcard continuing the level before it |
| Mqtt.CoversStandard | pubsub/mqtt3/mqtt.go:452-454 | a newline-free topic matching under sections 4.7.1.2 and 4.7.1.3 of MQTT 3.1.1 is accepted |
| Mqtt.ExactIsSound | pubsub/mqtt3/mqtt.go:479-484 | for exact filters what is accepted matches under the standard |
| Mqtt.LaxTopicWitness | pubsub/mqtt3/mqtt.go:470-482 | for every other filter a topic accepted against the standard |
| Mqtt.AgreesWithStandardIff | pubsub/mqtt3/mqtt.go:452-497 | expression and standard agree on all newline-free topics exactly for exact filters |
| MqttTopics.ValidFilterIff | pubsub/mqtt3/mqtt.go:452-469 | a filter is valid under section 4.7.1 of MQTT 3.1.1 exactly when each wildcard fills its level and a number sign ends it, character by character |
| Mqtt.StrippedIff | pubsub/mqtt3/mqtt.go:423-436 | a name is stripped exactly when it is a shared one, behind the slash that ends its group |
| Mqtt.SharedSubscription | pubsub/mqtt3/mqtt.go:423-436 | a shared subscription stands for its filter |
| Mqtt.PlainStandsForItself | pubsub/mqtt3/mqtt.go:431-436 | any other name stands for itself |
| Mqtt.StandardIsServed | pubsub/mqtt3/mqtt.go:239-260 | a topic that matches a subscription under the standard is served by its table entry |
| Mqtt.MqttPubSub.AddTopic | pubsub/mqtt3/mqtt.go:426-449 | adds or replaces one entry with its handler, whose alias is the filter behind the group of a shared name and empty otherwise; the others stay |
| Mqtt.MqttPubSub.HandlerForTopic | pubsub/mqtt3/mqtt.go:239-260 | an exact name wins; none is found only if no name stands for a valid filter that matches the topic; one found belongs to such a name if all filters are valid and exact |
| Base64.RoundTrip | configuration/kubernetes/configmap.go:335-341 | by the alphabet of section 4 of RFC 4648 every text decodes to its bytes, has the padded length, and zeros where the padding stands |
| Base64.EncodeInjective | configuration/kubernetes/configmap.go:335-341 | different bytes have different base64 texts |
| ConfigMapFeed.ConfigMapToItems | configuration/kubernetes/configmap.go:326-343 | the full view, item by item: texts as they are, binary values as base64 and marked so, the latter winning |
| ConfigMapFeed.DeletedItems | configuration/kubernetes/configmap.go:347-364 | every key of both sections, empty and marked deleted |
| ConfigMapFeed.FilterByKeys | configuration/kubernetes/configmap.go:368-379 | the subscribed part; no keys means all |
| ConfigMapFeed.ComputeChangedItems | configuration/kubernetes/configmap.go:383-428 | exactly the keys changed in either section or gone from both, each with its new item or marked deleted |
| ConfigMapFeed.ChangesExact | configuration/kubernetes/configmap.go:383-428 | the changes are exactly the keys whose value or encoding differs in the full views, each with its new item or marked deleted |
| ConfigMapFeed.OverlapDiverges | configuration/kubernetes/configmap.go:386-406 | why a key must not be in both sections |
| ConfigMapFeed.DeliveredKeys | configuration/kubernetes/configmap.go:254-297 | key by key what is delivered for an object added or deleted, known or last known |
| ConfigMapFeed.UpdateDelivers | configuration/kubernetes/configmap.go:267-284 | key by key what is delivered for an update: nothing for an equal version, else the subscribed changes |
| ConfigMapFeed.ForeignDelivers | configuration/kubernetes/configmap.go:311-323 | nothing is delivered of objects that are no ConfigMaps |
| ConfigMapFeed.SubscriberHandler.Send | configuration/kubernetes/configmap.go:299-309 | sends unless the context is done |
| ConfigMapFeed.SubscriberHandler.OnAdd | configuration/kubernetes/configmap.go:254-265 | sends the subscribed full view unless empty |
| ConfigMapFeed.SubscriberHandler.OnUpdate | configuration/kubernetes/configmap.go:267-284 | sends the subscribed changes unless empty or the version is the same |
| ConfigMapFeed.SubscriberHandler.OnDelete | configuration/kubernetes/configmap.go:286-297 | sends the subscribed keys as deleted unless empty |
| ConfigMapFeed.EventKeepsView | configuration/kubernetes/configmap.go:254-297 | one event keeps a folded view equal to the subscribed full view, keys moving between the sections included |
| ConfigMapFeed.FeedIsFaithful | configuration/kubernetes/configmap.go:254-297 | over any life of the ConfigMap folding what was sent gives the subscribed part of the current view |
| MongoQuery.VisitEQ | state/mongodb/mongodb_query.go:38-46 | the text of an equality |
| MongoQuery.VisitNEQ | state/mongodb/mongodb_query.go:48-56 | the text of an inequality |
| MongoQuery.VisitGT | state/mongodb/mongodb_query.go:58-66 | the text, or an error for strings |
| MongoQuery.VisitGTE | state/mongodb/mongodb_query.go:68-76 | the text, or an error for strings |
| MongoQuery.VisitLT | state/mongodb/mongodb_query.go:78-86 | the text, or an error for strings |
| MongoQuery.VisitLTE | state/mongodb/mongodb_query.go:88-96 | the text, or an error for strings |
| MongoQuery.VisitIN | state/mongodb/mongodb_query.go:98-119 | the text, or an error for an empty list |
| MongoQuery.VisitFilters | state/mongodb/mongodb_query.go:121-180 | the text of a group, failing exactly when some member fails |
| MongoQuery.VisitFilter | state/mongodb/mongodb_query.go:128-176 | fails exactly for an empty IN, a string in an ordering, or an unsupported node anywhere in the tree |
| MongoQuery.UnprintableIff | state/mongodb/mongodb_query.go:58-180 | that is, exactly when one of these stands anywhere inside it |
| Numbers.NumberRoundTrip | state/mongodb/mongodb_query.go:38-46 | every finite number, printed by its shortest digits with an exponent where %v writes one, reads back as itself |
| Numbers.ExponentIff | state/mongodb/mongodb_query.go:38-46 | an exponent is written exactly for numbers below a ten-thousandth or from a million on |
| Numbers.NoIdleDigits | state/mongodb/mongodb_query.go:38-46 | no needless zeros are written |
| Numbers.ExponentTexts | state/mongodb/mongodb_query.go:38-46 | an exponent is written with its sign and two digits at least |
| MongoText.EscapeTexts | state/mongodb/mongodb_query.go:38-46 | how a quoted string is written, character by character |
| MongoMeaning.WholeNumbersCompare | state/mongodb/mongodb_query.go:38-119 | on whole numbers the comparisons ask for the order of whole numbers |
| MongoText.EscapeReads | state/mongodb/mongodb_query.go:38-46 | a quoted string reads back as itself, and cannot be read exactly when it holds an unsafe character |
| MongoText.ArrayReads | state/mongodb/mongodb_query.go:98-119 | a printed list reads back as its elements |
| MongoKeys.NotReadAsItself | state/mongodb/mongodb_query.go:42-42 | a key that needs escaping is not read as itself |
| MongoKeys.ReadsAsIntendedIff | state/mongodb/mongodb_query.go:38-190 | the printed text of any nested tree is read as its JSON exactly when no key needs escaping and no string is unsafe |
| MongoMeaning.JsonMeans | state/mongodb/mongodb_query.go:121-190 | that JSON is a query exactly without empty groups, and means what the tree means |
| MongoMeaning.PrintedFilterMeansTree | state/mongodb/mongodb_query.go:38-199 | printing, reading and evaluating gives the tree's truth value on every document, with the exact condition for the text to be read so and to be accepted |
| MongoPaging.Query.Finalize | state/mongodb/mongodb_query.go:192-226 | limit and skip of the query, and the errors of an unreadable filter and a bad token |
| MongoPaging.WindowRows | state/mongodb/mongodb_query.go:213-224 | the rows that skip and limit select, place by place |
| MongoPaging.Query.Execute | state/mongodb/mongodb_query.go:228-280 | key, etag and value of each row of the window in order and the token, failing exactly on a server error or a row that does not decode |
| MongoPaging.RunQuery | state/mongodb/mongodb.go:566-581 | one call answers exactly as the reply to its page, with key, etag and value of each row |
| MongoPaging.TokensCountRows | state/mongodb/mongodb_query.go:213-279 | each token leads the next call right behind all rows returned so far |
| MongoPaging.Balance | state/mongodb/mongodb_query.go:213-279 | conservation over a finished walk: times returned plus slips equal moves back plus one if the row was still to come |
| MongoPaging.ReturnedOnceIff | state/mongodb/mongodb_query.go:213-279 | a row present throughout is returned exactly once exactly when it crossed page boundaries equally often both ways |
| MongoPaging.FrozenWalk | state/mongodb/mongodb_query.go:213-279 | over an unchanged result set a finished walk returns key, etag and value of all its rows in their order |
| MongoPaging.DeletionLosesRow | state/mongodb/mongodb_query.go:213-279 | deleting a returned row makes a walk miss an untouched one |
| RabbitMQ.RabbitMQ.DoReset | pubsub/rabbitmq/rabbitmq.go:720-743 | forgets exchanges, channel and connection, closing both; reports only a failing channel close |
| RabbitMQ.RabbitMQ.DoReconnect | pubsub/rabbitmq/rabbitmq.go:170-218 | the outcome, by the first thing that stops it, and the state after each: untouched, disconnected, or on a new connection with a raised count and no exchange remembered |
| RabbitMQ.RabbitMQ.EnsureExchangeDeclared | pubsub/rabbitmq/rabbitmq.go:691-705 | fails exactly if an exchange that is not cached cannot be declared; otherwise it is cached and declared on the channel |
| RabbitMQ.RabbitMQ.PublishSync | pubsub/rabbitmq/rabbitmq.go:220-286 | succeeds exactly with a channel, the exchange declared and the publish accepted; hands back channel and count as they were |
| RabbitMQ.RabbitMQ.EnsureSubscription | pubsub/rabbitmq/rabbitmq.go:506-517 | the same for a subscription, with the dead letter exchange |
| RabbitMQ.RabbitMQ.Close | pubsub/rabbitmq/rabbitmq.go:750-761 | stops the component and resets it; reports exactly a failing channel close |
| RabbitModel.FailedCallWaits | pubsub/rabbitmq/rabbitmq.go:220-286 | a client has a reconnect to do exactly after a call that failed, for the connection it saw |
| RabbitModel.RunKeepsInv | pubsub/rabbitmq/rabbitmq.go:170-218 | for any number of clients: at most the component's own connection is open, cached exchanges were declared on the current channel, and the channel is the one its count stands for |
| RabbitModel.ReconnectClosesOnlySeen | pubsub/rabbitmq/rabbitmq.go:170-218 | a client's reconnect closes no channel but the one it saw fail |
| RabbitModel.OneSuccessPerCount | pubsub/rabbitmq/rabbitmq.go:170-218 | over every run at most one reconnect succeeds per connection count |
| RabbitModel.ClosedForGood | pubsub/rabbitmq/rabbitmq.go:749-761 | once closed, no connection exists or is made again |
| RedisStreams.RunKeepsInv | pubsub/redis/redis.go:174-426 | the invariant of poller, reclaimer, workers and pending list over every run |
| RedisStreams.ReadIsPendingOrAcked | pubsub/redis/redis.go:242-272 | every message that the group handed out is either pending or acked, acked only with a reason, and pending without one |
| RedisStreams.ReadIsQueued | pubsub/redis/redis.go:174-187 | a message read becomes pending and goes to the end of the queue |
| RedisStreams.TakesFirst | pubsub/redis/redis.go:225-237 | workers take messages in the order of the queue |
| RedisStreams.HandledIsAckedIff | pubsub/redis/redis.go:242-272 | a message is acknowledged exactly if its handler succeeded or failed with a live context, and else stays pending |
| RedisStreams.VanishedIsRemoved | pubsub/redis/redis.go:397-426 | a pending message that no longer exists is found out and acknowledged |
| RedisStreams.PendingUntilAcked | pubsub/redis/redis.go:242-272 | over every run that keeps the group a pending message stays pending until it is acknowledged with a reason |
| RedisStreams.PendingCanReturn | pubsub/redis/redis.go:332-395 | with redelivery on, an existing pending message can be brought back to the queue |
| RedisStreams.WithoutRedeliveryNoReturn | pubsub/redis/redis.go:307-312 | with redelivery off, a message no longer in flight never comes back |
| RedisStreams.ReadOnce | pubsub/redis/redis.go:286-300 | while the group is there the poller is handed each message once |
| RedisStreams.AckedStaysAway | pubsub/redis/redis.go:242-272 | while the group is there an acknowledged message with no copy in flight stays acknowledged and never comes back, redelivery on or off |
| RedisStreams.AckedReturnsIff | pubsub/redis/redis.go:332-395 | while the group is there an acknowledged message can be in flight later exactly if it is now |
| RedisStreams.HandledAgainAfterAck | pubsub/redis/redis.go:332-395 | a message claimed while it is being handled is handled again after its acknowledgement |
| RedisStreams.LostGroupReadsAgain | pubsub/redis/redis.go:290-294 | a group lost by the server is made anew and reads every existing entry again, the other cause |
| BulkGet.ReturnsAnswers | state/bulk.go:72-110 | when the call returns, every request was answered exactly once, and its result holds its key and the item or the error of that answer |
| BulkGet.WithinLimit | state/bulk.go:77-86 | at no time of any run more calls of the store than a positive limit |
| BulkGet.StartsWhenFree | state/bulk.go:73-86 | another call starts whenever fewer than a positive limit are on the way, and without a limit at once |
| BulkGet.NoDeadlock | state/bulk.go:79-107 | until it returns some step is possible, whatever the store answers |
| BulkGet.EveryMaximalRunReturns | state/bulk.go:72-110 | every run is finite, and one that cannot go on has returned |
| BulkSetDelete.ReturnsFailures | state/bulk.go:118-157 | when the call returns every operation has ended and the joined errors are exactly the failures, key and error, in the order they happened |
| BulkSetDelete.WithinLimit | state/bulk.go:120-131 | at no time of any run more operations than a positive limit |
| BulkSetDelete.StartsWhenFree | state/bulk.go:119-131 | another operation starts whenever fewer than a positive limit are on the way, and without a limit at once |
| BulkSetDelete.NoDeadlock | state/bulk.go:126-154 | until it returns some step is possible, however operations end |
| BulkSetDelete.EveryMaximalRunReturns | state/bulk.go:118-157 | every run is finite, and one that cannot go on has returned |
| PulsarListener.SettledOnceBeforeClose | pubsub/pulsar/pulsar.go:869-965 | when the consumer is closed every message taken was acked or nacked exactly once |
| PulsarListener.AckedIff | pubsub/pulsar/pulsar.go:967-1022 | over every run a message is acked exactly if its handler succeeded, and nacked if it failed or could not be decoded or encoded |
| PulsarListener.TakenIsHeldOrSettled | pubsub/pulsar/pulsar.go:930-1022 | a message taken is settled or held by exactly one of at most the configured workers |
| PulsarListener.NothingAfterClose | pubsub/pulsar/pulsar.go:869-870 | nothing is taken or settled after the close |
| PulsarListener.DrainsAndCloses | pubsub/pulsar/pulsar.go:943-964 | cancelled and with nothing more delivered, the subscription takes boundedly many steps and can stop nowhere but with the consumer closed |
| AddressList.AddressList.Expire | nameresolution/mdns/mdns.go:74-86 | the compaction in place is an order-preserving filter, each address judged by the clock when it is looked at |
| AddressList.AddressList.Add | nameresolution/mdns/mdns.go:92-106 | refreshes the address of that IP in place or appends it |
| AddressList.AddressList.Next | nameresolution/mdns/mdns.go:112-130 | in bounds; gives the address at the counter and advances it, restarting at 4294967295 |
| AddressList.UnexpiredKeepsDistinct | nameresolution/mdns/mdns.go:74-86 | expiry keeps IPs distinct |
| AddressList.UnexpiredIsFilter | nameresolution/mdns/mdns.go:74-86 | expiry keeps exactly the addresses whose time has not come |
| AddressList.UnexpiredConcat | nameresolution/mdns/mdns.go:74-86 | and keeps them in their order |
| AddressList.RefreshedAt | nameresolution/mdns/mdns.go:92-106 | adding gives the first address of the IP a minute from now, in place, or appends it, and leaves the others |
| AddressList.RefreshedKeepsDistinct | nameresolution/mdns/mdns.go:92-106 | adding keeps IPs distinct and gives the IP its full time to live |
| AddressList.RoundRobin | nameresolution/mdns/mdns.go:112-130 | as many calls in a row as there are addresses, without a counter restart, give each exactly once |
| AddressCounter.ConcurrentRoundRobin | nameresolution/mdns/mdns.go:112-130 | so do calls that interleave at the atomic counter |

## Left out

- Network clients, connection setup, TLS, cloud authentication, metadata decoding and the adapters around them: not decided by this code.
- etcd `Set`, `Delete` and `Multi`: the transaction's success flag is not consulted, so nothing about commits follows.
- Compaction of etcd revisions: a read at a compacted revision is not told apart from any other failing read, which ends a call as Cancelled.
- Characters beyond ASCII: bytes and runes are one `char`; multi-byte characters in patterns, keys and topics are not told apart.
- InMemoryStore.Store.Multi: does not model that the operations in the request are replaced in place, nor operation kinds other than set and delete, which the code ignores.
- InMemoryStore.Store.KeysLike: write numbers are unbounded where the code has 64 bits (walks through token texts assume they fit), and expired items that were not cleaned are listed, as in the code.
- SortingKeys.SortingKeys.Stable: is insertion through Less and Swap, which Go's `sort.Stable` uses for short slices; its merging of longer ones is not modelled, but write numbers are distinct, so the sorted order is the same.
- The clocks of the in-memory store and of the address list count whole seconds.
- In-memory `DeleteWithPrefix`, `Init`, `Close`, TTL parsing and value marshalling: the last two appear as possible failures of a request.
- Regex: only the syntax that the two translators emit; other texts count as invalid.
- MQTT topics that begin with `$` (section 4.7.2 of MQTT 3.1.1): the code treats them like any other.
- MongoText: values are strings, numbers and booleans; nulls and nested values, which `%v` writes in Go's own way, and non-printable characters beyond ASCII are not modelled. Numbers stand for their shortest decimal digits; which of them a 64-bit float can hold is not modelled.
- Json: the reader is strict and knows no `\u` escapes, which `%q` prints only for characters outside this model.
- MongoPaging: the order of a result set is the server's; the sort document and the formats of returned values are not modelled. The server is taken to refuse a negative skip.
- RabbitMQ and Pulsar: waiting for goroutines in `Close` is not modelled; only safety is.
- RedisStreams: one stream, whose entries never reuse an identifier; the payload of messages is not modelled. A failing claim with the nil error returns no messages, as the client wrapper does.
- AddressList.AddressList.Next: is one call at a time; calls that share the read lock are modelled at their counter alone, over an unchanged list.
- EtcdWalk: the order of entries that tie is whatever the server gives, the same for every read of one snapshot.
- PulsarListener: decoding and the choice of the delivered topic only appear as ways a message can end.
- BulkGet: metadata and etag of an answer are part of its item.
- mDNS resolution, browsing and the subscriber pools: their outcomes depend on timers and races.

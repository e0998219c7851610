# Storely, modelled and proved

Storely is a key-value layer with lifetimes, namespaces, batches and iteration over many backends. This project
models the parts where a fast, batched or concurrent form has to agree with a simple one, and proves that it does,
or says exactly when. A backend is an abstract table or map, a server call is one atomic step, the clock is a
parameter that never runs backwards where a statement spans several calls.

Each component is stated twice. Functions over values say what one call does to the table and what it answers;
classes and methods follow the loops, chunks and in-place updates of the source and are proved against those
functions. The theorems about whole runs are lemmas about the functions.

| file | what it holds |
|---|---|
| `Texts.dfy`, `Base64.dfy`, `Json.dfy`, `JsonText.dfy` | decimal texts, base64 (RFC 4648, section 4), a JSON printer and parser (RFC 8259) that undo each other, and what their texts are, escape by escape |
| `JsonSerializer.dfy`, `StoredTexts.dfy` | the default serializer: tags, escapes, the `*` form; the texts it stores |
| `SqliteTable.dfy`, `Sqlite.dfy`, `SqliteKeys.dfy` | the table, its statements, the adapter's single and chunked operations; which given keys share a row |
| `SqliteRuns.dfy`, `SqliteIterator.dfy`, `SqliteMigration.dfy` | whole runs, the paginated iterator among other actors, the migration of the old schema |
| `EndToEnd.dfy`, `AdapterIsClass.dfy` | from the value given to the core's `set` through serializer and column to the value its `get` returns |
| `RedisCluster.dfy`, `RedisKeys.dfy` | slot groups, one transaction per slot in any order, scattered answers; what batches answer about given keys |
| `OrderedMap.dfy`, `Division.dfy`, `Bits.dfy`, `BigMap.dfy` | JavaScript's Map; remainders and 32-bit arithmetic; the sharded map and its hash |
| `Recency.dfy`, `Sanitize.dfy`, `SanitizeLaws.dfy`, `Stats.dfy` | least-recently-used maps described by their history; the sanitizer's memos and which option strips what; the statistics |
| `Storely.dfy`, `BatchReads.dfy`, `CoreLaws.dfy` | the core: fast and full path, setters, batch writes; batch reads with the expiry check against single reads in turn; what a caller can rely on over any plain store |
| `Memory.dfy`, `MemoryLaws.dfy`, `MemoryIterator.dfy` | in-memory adapters sharing one map; what `get` answers after `set`; their generators, step by step |
| `KeyFormat.dfy`, `Etcd.dfy`, `Dynamo.dfy` | formatted keys, shared leases, deadlines in seconds and the retry loop |
| `Valkey.dfy` | the tracking set and strided replies |

## What the proofs turned up

Where a promise does not hold as the documentation or a caller might read it, the code is kept as it is and the
exact condition is proved.

- SQLite `deleteMany` counts a key each time it is listed; deleting one at a time counts it once. The two agree
  exactly when no present key is listed twice (`SqliteRuns.DeleteManyIsDeletesInTurnIff`,
  `SqliteRuns.RepeatedKeyCountsTwice`). A row written between the SELECT and the DELETE of a chunk is deleted and
  reported false (`Sqlite.DeleteTakesUnseen`). Redis `deleteMany` keeps the last reply per key, so a present key
  listed twice reads as absent (`RedisCluster.DeleteAnswersIff`,
  `RedisCluster.RepeatedKeyReadsAbsent`). If a slot of a cluster fails, all answers are false although the keys of the
  other slots are gone, and a second try does not report them either (`RedisCluster.RetryReportsTheRest`).
- A lazy delete that SQLite sends after its SELECT removes whatever row is there by then, also a row another actor
  has just written (`SqliteRuns.LateDeleteLosesWrite`). It is invisible exactly if the calls in between do not leave
  a live row for a key the SELECT found expired (`SqliteRuns.LateDeleteInvisibleIff`).
- The SQLite iterator need not end against an actor that keeps inserting past the cursor
  (`SqliteIterator.EndlessInsertionsAreChased`); with finitely many keys it does.
- The SQLite migration loses a row exactly when some colon-free `k` stands beside `:k`
  (`SqliteMigration.LossIffCollision`), and a namespace that contains a colon finds none of its keys afterwards
  (`SqliteMigration.ColonNamespacesFindNothing`). Migrated rows carry no `expires`, whatever their value says.
- The JSON round trip is exact on precisely the values of `JsonSerializer.UnchangedExactly`.
- Setting BigMap's hash function moves no entry: the map stays sound exactly if the new hash routes every present
  key as the old one did (`BigMap.BigMap.SetHash`, `BigMap.NewHashHidesKey`).
- With the expiry check on, a row found expired under a cleaned key is deleted under that key cleaned once more
  (core/storely/src/utils.ts:80-82, core/storely/src/storely.ts:965-967). Cleaning is not idempotent
  (`Sanitize.CleaningIsNotIdempotent`). The read leaves the store without exactly the expired row when cleaning
  again changes nothing or neither key has a row by then (`Storely.ExpiredReadIsRightIff`), and it takes another
  key's row exactly when the key cleaned again is a different key with a row (`Storely.ExpiredReadLosesOtherIff`):
  an expired read of `-\n-x` deletes the live row of `x` (`Storely.ExpiredReadLosesLiveRow`). A batch of these two
  keys even answers `x` with the value it deletes (`BatchReads.BatchReturnsWhatItDeletes`);
  `BatchReads.BatchIsGetsInTurnIff` says when a batch answers as single reads in turn.
- The two base64 decoders agree on all well-formed texts. On others they need not: `atob` fails on some, though it
  accepts blanks and missing padding (`Base64.ForgivingReadsMore`), and Buffer fails on none
  (`Base64.Base64ToBytes`).
- Memory namespaces that do not contain the separator are kept apart exactly for separators that cannot overlap
  themselves: with `::`, the namespaces `x` and `x:` collide (`Memory.SeparatorFreeIff`).
- The etcd adapter's comment says that a lease is reused only if its rest covers the requested lifetime
  (storage/etcd/src/index.ts:360-372). The code reuses it through half its period, so a key may be gone after half
  its lifetime (`Etcd.ReuseCutsTtl`). `Etcd.FullTtlIff` says by the guard of that branch which keys live through their
  deadline; a lifetime of whole seconds on a new lease ends at it and not after it (`Etcd.WholeSecondsEndEarly`).
  An undefined value never reaches its deadline check and stays readable until its lease ends
  (`Etcd.ReadAfterSet`).
- A DynamoDB row whose lifetime contains no whole second is expired when it is written (`Dynamo.DeadOnArrivalIff`,
  `Dynamo.HalfSecondIsOver`).
  `hasMany` leaves behind expired rows without a value that `has` would delete (`Dynamo.HasManyLeavesTheTableIff`,
  `Dynamo.HasManyLeavesValueless`).
- Valkey's tracking set is documented never to share its key with data (storage/valkey/src/index.ts:649-653). It
  does with the data of another tracked adapter whose namespace and key spell the namespace, and with the data of an
  untracked adapter without namespace that stores the set's own key; with nothing else
  (`Valkey.SetKeyCollidesIff`, `Valkey.SetKeyCollisions`). Such a write replaces the set by a text, and over a text
  `clear` removes nothing and fails (`Valkey.TextUnderSetKeyStopsClear`, `Valkey.NeighbourStopsClear`). The other way
  round, everything a tracked adapter of namespace `a:b` stores lies under the prefix of namespace `a`, whose set does
  not name it: `clear` of `a` goes through and leaves it (`Valkey.NeighbourEscapesClear`). A neighbour is harmless
  exactly if it has a namespace and either does not track, or both have one and neither of the two, a colon added,
  begins with the other (`Valkey.SparesIff`, `Valkey.HarmlessIff`). `Valkey.StepKeepsTrackingIff` says which steps,
  whoever takes them, leave the set incomplete. `set` with tracking answers true even if the server refuses the write
  (`Valkey.StorelyValkey.Set`).

## Model

| member | source | states |
|---|---|---|
| Texts.IntRoundTrip | core/storely/src/json-serializer.ts:69-71 | the text of a bigint is read back as that bigint |
| Texts.IntTexts | core/storely/src/json-serializer.ts:118-131 | which decimal texts a bigint is read from, the empty one included |
| Texts.DigitsAre | core/storely/src/json-serializer.ts:69-71 | the ten digits |
| Base64.RoundTrip | core/storely/src/json-serializer.ts:17-44 | decoding undoes encoding on every byte sequence |
| Base64.BytesToBase64 | core/storely/src/json-serializer.ts:17-29 | the Buffer branch and the byte loop give the same base64 text |
| Base64.Base64ToBytes | core/storely/src/json-serializer.ts:31-44 | the `atob` branch reads what forgiving base64 reads and fails on the rest, the Buffer branch never fails; both undo the encoding wherever the text is well formed |
| Base64.ForgivingAgrees | core/storely/src/json-serializer.ts:36-43 | what `atob` reads from a well-formed text is what it encodes |
| Base64.ForgivingReadsMore | core/storely/src/json-serializer.ts:36-43 | `atob` reads one byte from `QQ`, which is not well formed |
| Base64.TableIs | core/storely/src/json-serializer.ts:17-44 | the letters of the 64 symbols and the pad |
| Base64.SameBits | core/storely/src/json-serializer.ts:17-44 | four letters carry the bits of three bytes in order |
| Base64.BlankIsIgnored | core/storely/src/json-serializer.ts:36-43 | `atob` ignores the five blanks wherever they stand |
| Base64.PadsMayBeMissing | core/storely/src/json-serializer.ts:36-43 | without its pads every encoded text is still read as its bytes |
| Base64.OddLengthsFail | core/storely/src/json-serializer.ts:36-43 | it refuses a single letter behind the blocks, and pads that do not fill a block |
| Json.RoundTrip | core/storely/src/json-serializer.ts:102-151 | parsing the printed text of any JSON value gives that value |
| JsonText.ShortEscapesRead | core/storely/src/json-serializer.ts:129-151 | the character each of the eight short escapes is read as |
| JsonText.UnicodeEscapeReads | core/storely/src/json-serializer.ts:129-151 | the character each four digits, of either case, are read as |
| JsonText.OtherEscapesFail | core/storely/src/json-serializer.ts:129-151 | no other escape is read |
| JsonText.PlainCharsRead | core/storely/src/json-serializer.ts:129-151 | every other character from the blank up is read as itself, controls are refused |
| JsonText.ControlsRead | core/storely/src/json-serializer.ts:129-151 | whole documents with an escaped line feed and an escaped tab |
| JsonText.CharPrints | core/storely/src/json-serializer.ts:102-127 | the text each character is printed as |
| JsonText.StringPrints | core/storely/src/json-serializer.ts:102-127 | a string is printed character by character |
| JsonText.ItemsPrint | core/storely/src/json-serializer.ts:102-127 | brackets and commas |
| JsonText.MembersPrint | core/storely/src/json-serializer.ts:102-127 | braces, quoted names, colons and commas |
| JsonText.BlanksAround | core/storely/src/json-serializer.ts:129-151 | blanks around a printed value do not matter |
| JsonText.LaterMemberWins | core/storely/src/json-serializer.ts:129-151 | of members with one name the last gives the value |
| Json.PrintStarts | core/storely/src/json-serializer.ts:103-106 | a printed value begins with one of eight kinds of characters, none of them `*` |
| Json.StarIsNotJson | core/storely/src/json-serializer.ts:103-106 | no text beginning with `*` is accepted by the parser |
| Json.DecimalIsNumeral | storage/sqlite/src/index.ts:785-803 | a decimal text is a JSON number and denotes its value |
| JsonSerializer.PrepareTree | core/storely/src/json-serializer.ts:60-99 | the traversal with its object-building loop computes the tagged and escaped tree |
| JsonSerializer.NormalizeKeepsExactlyFaithful | core/storely/src/json-serializer.ts:60-99 | the normal form equals the value exactly for trees without undefined, minus zero, non-finite numbers and `__proto__` |
| JsonSerializer.RoundTrip | core/storely/src/json-serializer.ts:102-151 | every value, envelope or not, comes back in normal form, the sentinel form as an envelope |
| JsonSerializer.UnchangedExactly | core/storely/src/json-serializer.ts:102-151 | the exact set of values that come back equal |
| JsonSerializer.EnvelopeRoundTrip | core/storely/src/json-serializer.ts:102-151 | value and deadline of every envelope come back, the value in normal form |
| JsonSerializer.ValueUnchangedExactly | core/storely/src/json-serializer.ts:102-151 | the value of an envelope comes back equal exactly if it is undefined or faithful |
| JsonSerializer.FormsDoNotCollide | core/storely/src/json-serializer.ts:103-127 | a stored text begins with `*` exactly in the sentinel form |
| StoredTexts.EnvelopeTexts | core/storely/src/json-serializer.ts:102-127 | the text of an envelope with and without a deadline, literally |
| StoredTexts.TagsAre | core/storely/src/json-serializer.ts:60-85 | the tags of bigints and bytes and the escaped colon |
| StoredTexts.PlainTexts | core/storely/src/json-serializer.ts:102-127 | the texts of the plain values; undefined is dropped, non-finite numbers are null |
| StoredTexts.ItemTexts | core/storely/src/json-serializer.ts:75-80 | an undefined item is null |
| StoredTexts.PropTexts | core/storely/src/json-serializer.ts:82-99 | an undefined property and `__proto__` are dropped |
| JsonSerializer.TextsDetermineEnvelopes | core/storely/src/json-serializer.ts:102-151 | envelopes with the same text agree in value and deadline |
| SqliteTable.PageSpec | storage/sqlite/src/index.ts:675-686 | a page is strictly increasing live keys past the cursor, and a live key it omits lies beyond a full page |
| SqliteTable.UpsertAppend | storage/sqlite/src/index.ts:510-513 | a multi-row upsert is its rows written one part after the other |
| SqliteKeys.RowKeys | storage/sqlite/src/index.ts:756-774 | a namespace's prefix is taken off once; any other key is its own row key |
| SqliteKeys.SameRowIff | storage/sqlite/src/index.ts:756-774 | keys given to two adapters share a row exactly if the namespaces are the same and the keys equal, or one is the other with the namespace in front |
| SqliteKeys.ReadsLastWrite | storage/sqlite/src/index.ts:462-525 | after a batch, a key answers the last value written under it until the deadline that value carries, and as before if there is none |
| SqliteKeys.ReadsAfterDelete | storage/sqlite/src/index.ts:532-574 | after a batch delete exactly the keys listed answer nothing |
| SqliteKeys.PresentAfterWrites | storage/sqlite/src/index.ts:462-540 | a row is there exactly if it was or its key is written |
| SqliteKeys.SetTwoGetBoth | storage/sqlite/src/index.ts:395-479 | two keys set through the adapter: each `get` answers its own value, unless they are the same key |
| Sqlite.StorelySqlite.Get | storage/sqlite/src/index.ts:395-413 | answers the row that was live at the SELECT; the DELETE sent after it takes the row the other actors have left for a key found expired, and with no other actor the expired row itself |
| Sqlite.StorelySqlite.Has | storage/sqlite/src/index.ts:590-607 | the same for presence |
| Sqlite.StorelySqlite.Set | storage/sqlite/src/index.ts:462-479 | one upsert with the deadline taken from the value, nothing when the statement fails |
| Sqlite.StorelySqlite.Delete | storage/sqlite/src/index.ts:532-540 | true exactly for a row present before |
| Sqlite.StorelySqlite.Clear | storage/sqlite/src/index.ts:580-583 | no key of the namespace is found at any time, every other key as before |
| Sqlite.StorelySqlite.ClearExpired | storage/sqlite/src/index.ts:651-654 | keeps no row with `expires < now`, and no read from now on answers differently |
| Sqlite.StorelySqlite.GetMany | storage/sqlite/src/index.ts:421-452 | whatever others do between SELECT, DELETE and the chunks of 998: each key is answered with the value of the last chunk that found it live; undisturbed, as in the starting table, with the expired ones swept; no statement exceeds 999 parameters |
| Sqlite.StorelySqlite.ReadChunk | storage/sqlite/src/index.ts:428-447 | one chunk: the live rows at the SELECT, and the late DELETE of the keys found expired |
| Sqlite.AloneMany | storage/sqlite/src/index.ts:421-452 | undisturbed, the chunks together answer and sweep as one read of all keys from the starting table |
| Sqlite.StorelySqlite.HasMany | storage/sqlite/src/index.ts:615-644 | the same for presence |
| Sqlite.StorelySqlite.DeleteMany | storage/sqlite/src/index.ts:550-574 | whatever others do between SELECT, DELETE and the chunks: true exactly for the keys some chunk listed and its SELECT found; the rows listed go at their chunk's DELETE; undisturbed, true exactly for the rows present before, and all listed rows gone |
| Sqlite.AloneDeleteMany | storage/sqlite/src/index.ts:550-574 | undisturbed, the chunks together find and delete what one statement would |
| Sqlite.DeleteTakesUnseen | storage/sqlite/src/index.ts:560-571 | a row written between SELECT and DELETE is deleted and reported false |
| Sqlite.StorelySqlite.SetMany | storage/sqlite/src/index.ts:486-525 | the table of in-order writes of the chunks of 249 that went through, with matching booleans |
| SqliteRuns.PurgesAndReadsAreInvisible | storage/sqlite/src/index.ts:395-452 | over any run, dropping any reads and purges changes nothing any other call sees, pages of the iterator included |
| SqliteRuns.DeletesDifferOnlyOnDead | storage/sqlite/src/index.ts:532-540 | delete booleans can differ only for keys dead in both tables |
| SqliteRuns.DeleteCanTell | storage/sqlite/src/index.ts:651-654 | and they do differ: a purge before a delete is visible to it |
| SqliteRuns.LateDeleteInvisibleIff | storage/sqlite/src/index.ts:406-410 | a DELETE sent after its SELECT and any calls of others changes no later observation exactly if those calls leave no live row for a key the SELECT found expired |
| SqliteRuns.LateDeleteSameLiveIff | storage/sqlite/src/index.ts:406-410 | the same condition for the live rows at the moment of the DELETE |
| SqliteRuns.LateDeleteLosesWrite | storage/sqlite/src/index.ts:406-410 | a row another actor sets between the SELECT and the DELETE of an expired one is lost |
| SqliteRuns.FateDecides | storage/sqlite/src/index.ts:395-452 | the last write, delete or clear of a row in a run decides what is live there after it, reads and purges notwithstanding |
| SqliteRuns.DifferenceIsSeen | storage/sqlite/src/index.ts:395-413 | of two tables with different live rows some later call tells which it is, if the one is part of the other |
| SqliteRuns.GetManyIsGetsInTurn | storage/sqlite/src/index.ts:421-452 | batch reads answer and sweep like single reads in turn, duplicates included |
| SqliteRuns.DeletesInTurnAre | storage/sqlite/src/index.ts:532-540 | single deletes in turn count a present key only the first time |
| SqliteRuns.DeleteManyIsDeletesInTurnIff | storage/sqlite/src/index.ts:550-574 | batch deletes answer like deletes in turn exactly when no present key is listed twice |
| SqliteRuns.RepeatedKeyCountsTwice | storage/sqlite/src/index.ts:550-574 | a present key listed twice is true twice in a batch and once in turn |
| SqliteRuns.SetManyIsSetsInTurn | storage/sqlite/src/index.ts:486-525 | one more entry of a batch is one more `set` after it |
| SqliteIterator.KeysIncrease | storage/sqlite/src/index.ts:662-713 | yielded keys increase strictly, whatever others do between pages |
| SqliteIterator.PairsWereLive | storage/sqlite/src/index.ts:662-713 | the pair at position i was live, with that value, at query `i / limit`, the one that read its page |
| SqliteIterator.LiveKeysAreCovered | storage/sqlite/src/index.ts:662-713 | a key live at every query is yielded or still ahead, and yielded once the iterator has ended |
| SqliteIterator.StillTableIsListed | storage/sqlite/src/index.ts:662-713 | on an untouched table a finished iteration lists exactly the live keys |
| SqliteIterator.RunningIsBounded | storage/sqlite/src/index.ts:667-712 | with finitely many keys, n queries without an end mean n full pages of them |
| SqliteIterator.Iterate | storage/sqlite/src/index.ts:662-713 | the loop is the step machine and ends within one query more than full pages fit |
| SqliteIterator.EndlessInsertionsAreChased | storage/sqlite/src/index.ts:667-712 | against endless insertions past the cursor it does not end |
| SqliteMigration.CollisionsAre | storage/sqlite/src/index.ts:196-198 | two old keys share a new row only as `k` and `:k` with `k` free of colons |
| SqliteMigration.SplitInjective | storage/sqlite/src/index.ts:196-198 | splitting is injective on keys that do not begin with a colon |
| SqliteMigration.MigrateKeepsFirst | storage/sqlite/src/index.ts:196-198 | under an id the first old row that splits to it is kept, and nothing else |
| SqliteMigration.LossIffCollision | storage/sqlite/src/index.ts:187-199 | no row is lost exactly when no such pair exists |
| SqliteMigration.LookupAfterMigration | storage/sqlite/src/index.ts:187-199 | a lookup finds the old value of `ns:k`, or of a colon-free `k` without namespace |
| SqliteMigration.ColonNamespacesFindNothing | storage/sqlite/src/index.ts:196-198 | a namespace with a colon finds nothing |
| SqliteMigration.AdapterReadsMigrated | storage/sqlite/src/index.ts:756-762 | through the adapter the prefixed key reads its old value and never expires |
| EndToEnd.ColumnIsDeadline | storage/sqlite/src/index.ts:785-803 | the column is exactly the envelope's deadline or NULL, whatever `expires` the value contains |
| EndToEnd.UntouchedRun | storage/sqlite/src/index.ts:395-413 | a row nobody writes, deletes or clears stays readable while it lives, over any run |
| EndToEnd.ReadBack | storage/sqlite/src/index.ts:395-413 | after any such run the text stored for a value parses back to its normal form before its deadline and is not found from then on |
| EndToEnd.ReadBackUnchangedIff | storage/sqlite/src/index.ts:395-413 | a faithful value reads back unchanged exactly while it has no deadline or the time is before it |
| EndToEnd.SetStores | core/storely/src/storely.ts:637-707 | the core's `set` over serializer and table writes the serialized envelope of the value with the deadline its lifetime gives, and reports no error |
| EndToEnd.GetRetrieves | core/storely/src/storely.ts:404-473 | the core's `get` over serializer and table answers the value of the live row's envelope, nothing for one that is checked and found expired, and reports an error for a text the serializer cannot read |
| EndToEnd.SetThenGet | core/storely/src/storely.ts:404-707 | `set`, then any run that does not touch the row, then `get`: the value in normal form while its lifetime, the one given or else the core's, is none or not positive or `now < setAt + lifetime`; undefined from then on; no errors |
| AdapterIsClass.Reads | storage/sqlite/src/index.ts:395-413 | the core's adapter answers and changes the table like `Get` of the class |
| AdapterIsClass.Writes | storage/sqlite/src/index.ts:462-479 | the core's adapter answers and changes the table like `Set` of the class |
| AdapterIsClass.Removes | storage/sqlite/src/index.ts:532-540 | the core's adapter answers and changes the table like `Delete` of the class |
| AdapterIsClass.Contains | storage/sqlite/src/index.ts:590-607 | the core's adapter answers and changes the table like `Has` of the class |
| AdapterIsClass.ReadsMany | storage/sqlite/src/index.ts:421-452 | the core's adapter answers and changes the table like `GetMany` of the class |
| AdapterIsClass.WritesMany | storage/sqlite/src/index.ts:486-525 | the core's adapter answers and changes the table like `SetMany` of the class |
| AdapterIsClass.RemovesMany | storage/sqlite/src/index.ts:550-574 | the core's adapter answers and changes the table like `DeleteMany` of the class |
| AdapterIsClass.ContainsMany | storage/sqlite/src/index.ts:615-644 | the core's adapter answers and changes the table like `HasMany` of the class |
| EndToEnd.TtlDeadline | core/storely/src/utils.ts:18-24 | a deadline `now + ttl` is in time exactly before that millisecond |
| RedisCluster.GroupsPartition | storage/redis/src/index.ts:351-360 | slot groups partition the positions, each in input order |
| RedisCluster.ApplyByKey | storage/redis/src/index.ts:362-383 | a cell depends only on its own slot's entries |
| RedisCluster.AllSetsDone | storage/redis/src/index.ts:362-383 | when all slots have run, in whatever order, the store is that of the entries left to right |
| RedisCluster.StorelyRedis.GroupEntries | storage/redis/src/index.ts:351-360 | the grouping loop builds exactly those groups |
| RedisCluster.StorelyRedis.SetManyBySlot | storage/redis/src/index.ts:347-383 | any transaction order gives the left-to-right store, each reply at its own index; failing slots change nothing and make all answers false |
| RedisCluster.StorelyRedis.SetMany | storage/redis/src/index.ts:341-400 | cluster and standalone agree on store and answers |
| RedisCluster.StorelyRedis.GroupKeys | storage/redis/src/index.ts:912-927 | keys grouped by slot in input order |
| RedisCluster.StorelyRedis.Mget | storage/redis/src/index.ts:838-864 | each key's value, in either mode and any order; an error exactly if a slot of the keys fails |
| RedisCluster.StorelyRedis.GetMany | storage/redis/src/index.ts:538-561 | each position gets its key's value, or nothing at all positions if a slot of the keys fails |
| RedisCluster.StorelyRedis.HasMany | storage/redis/src/index.ts:452-487 | each position gets its key's presence, in either mode and any order; all false if a slot of the keys fails |
| RedisCluster.StorelyRedis.DeleteMany | storage/redis/src/index.ts:596-642 | the keys of the slots that are up are gone; per position the reply to the last unlink of its key, in either mode and any order, or false at all positions if a slot of the keys fails |
| RedisCluster.RetryReportsTheRest | storage/redis/src/index.ts:596-657 | trying a failed batch again takes the rest of the keys and reports only those |
| RedisCluster.DeleteAnswersIff | storage/redis/src/index.ts:617-642 | that is the single-delete answer exactly for keys absent or listed once |
| RedisKeys.StoredNames | storage/redis/src/index.ts:678-684 | namespace, separator and key, in this order; without a namespace the key |
| RedisKeys.SameNameIff | storage/redis/src/index.ts:678-684 | two keys have the same name exactly if they are equal |
| RedisKeys.NamespacesShareIff | storage/redis/src/index.ts:678-684 | two namespaces share a name exactly if one, the separator added, begins with the other and the keys make up the difference |
| RedisKeys.ApplyLeaves | storage/redis/src/index.ts:362-383 | an entry not overwritten in its batch leaves its value, and its lifetime if that is positive |
| RedisKeys.SetManyGetMany | storage/redis/src/index.ts:343-561 | an entry reported as set and not overwritten in its batch is read back with its own value; with every slot up and every entry accepted all are reported |
| RedisKeys.DeleteManyGetMany | storage/redis/src/index.ts:538-657 | after a batch delete the keys listed are not read, every other key as before |
| RedisKeys.DeleteManyHasMany | storage/redis/src/index.ts:448-657 | exactly the keys that were there and are listed once are reported, none is there afterwards |
| RedisCluster.RepeatedKeyReadsAbsent | storage/redis/src/index.ts:616-621 | a present key listed twice reads as absent |
| Bits.MaskIsMod | core/bigmap/src/index.ts:54-59 | for a power of two the mask is the remainder |
| Bits.Mask32IsMod | core/bigmap/src/index.ts:54-59 | also with both operands cut to signed 32-bit integers, where the test finds exactly the powers of two |
| BigMap.DefaultHashIsMod | core/bigmap/src/index.ts:34-60 | masked or not, the default hash is the mixed hash modulo the number of shards |
| BigMap.HashOfFiveLetters | core/bigmap/src/index.ts:33-60 | the mixed hash of one text whose five sampled positions are all different |
| BigMap.CustomShards | core/bigmap/src/index.ts:131-132 | a custom hash is rounded down, made positive and reduced |
| BigMap.FlatFinds | core/bigmap/src/index.ts:229-233 | a key is found in its own shard and in no other |
| BigMap.BigMap.constructor | core/bigmap/src/index.ts:86-103 | a new map is sound and empty |
| BigMap.BigMap.Resolve | core/bigmap/src/index.ts:110-133 | the inlined hash picks the shard `defaultHashFunction` picks, and any other hash its floored, positive remainder |
| BigMap.BigMap.Get | core/bigmap/src/index.ts:309-315 | what the routed shard holds, which in a sound map is lookup in the plain map |
| BigMap.BigMap.Has | core/bigmap/src/index.ts:322-328 | the same for membership |
| BigMap.BigMap.Set | core/bigmap/src/index.ts:342-352 | refines the plain map, every key stays in its own shard |
| BigMap.BigMap.Delete | core/bigmap/src/index.ts:278-284 | refines the plain map |
| BigMap.BigMap.Clear | core/bigmap/src/index.ts:267-271 | empties every shard |
| BigMap.BigMap.Resize | core/bigmap/src/index.ts:149-157 | new empty shards, or an error and no change |
| BigMap.BigMap.SetHash | core/bigmap/src/index.ts:171-179 | the exact condition under which a new hash keeps the map sound |
| BigMap.NewHashHidesKey | core/bigmap/src/index.ts:171-179 | with two shards and one key, a new hash that points to the other shard hides the key |
| BigMap.BigMap.Size | core/bigmap/src/index.ts:358-365 | the sum over the shards is the true count |
| BigMap.BigMap.AllEntries | core/bigmap/src/index.ts:229-233 | iteration yields every entry exactly once |
| Recency.KeptSnoc | core/storely/src/sanitize.ts:192-207 | a use moves its key to the end and pushes out the oldest key of a full map when it is new |
| Recency.RecallKeepsRecent | core/storely/src/sanitize.ts:187-210 | one lookup takes the memo of any history to the memo of the longer history |
| Recency.CountKeepsRecent | core/storely/src/stats.ts:235-249 | one count takes the counts of any history to those of the longer history, each count since its key last entered |
| Recency.UsesAreAccountedFor | core/storely/src/stats.ts:235-249 | kept counts and those lost by eviction add up to the uses |
| Recency.NothingLostIff | core/storely/src/stats.ts:243-248 | nothing is lost exactly while the distinct keys fit |
| Sanitize.StorelySanitize.UpdateOptions | core/storely/src/sanitize.ts:173-182 | patterns recompiled, both memos emptied |
| Sanitize.StorelySanitize.ClearCache | core/storely/src/sanitize.ts:254-257 | both memos emptied |
| Sanitize.StorelySanitize.Lookup | core/storely/src/sanitize.ts:192-209 | answers like the patterns and keeps exactly the most recent distinct keys in recency order |
| Sanitize.StorelySanitize.CleanKey | core/storely/src/sanitize.ts:187-210 | over any run the answer is what the current patterns give on the raw key |
| Sanitize.StorelySanitize.CleanKeys | core/storely/src/sanitize.ts:215-221 | the same for each key of a list |
| Sanitize.StorelySanitize.CleanNamespace | core/storely/src/sanitize.ts:226-249 | the same for namespaces |
| Sanitize.CleaningIsNotIdempotent | core/storely/src/sanitize.ts:92-126 | with `sql` and `escape` on, `-\n-x` is cleaned to `--x` and that to `x` |
| SanitizeLaws.OptionsSwitch | core/storely/src/sanitize.ts:92-126 | each pattern of the SQL, escape and path category between letters is stripped exactly if its category is on; an option left out is on |
| SanitizeLaws.OperatorsSwitch | core/storely/src/sanitize.ts:92-126 | the same for a leading dollar and for a brace, blanks and a dollar; a dollar elsewhere stays |
| Stats.CountsAgainstCounter | core/storely/src/stats.ts:235-249 | counts sum to at most the event counter, and to it exactly if no key was empty and none was evicted |
| Stats.EventNames | core/storely/src/stats.ts:222-230 | the name an event is counted under; within a namespace different keys have different names |
| Stats.StorelyStats.IncrementKeys | core/storely/src/stats.ts:235-249 | one count in the bounded map of the event |
| Stats.StorelyStats.Subscribe | core/storely/src/stats.ts:256-297 | listeners sit on the new emitter only |
| Stats.StorelyStats.Unsubscribe | core/storely/src/stats.ts:302-313 | no listener is left anywhere |
| Stats.StorelyStats.SetEnabled | core/storely/src/stats.ts:207-217 | toggling keeps the emitter and listens on it exactly when enabled |
| Stats.StorelyStats.Reset | core/storely/src/stats.ts:318-329 | counters and maps start anew |
| Stats.StorelyStats.Emit | core/storely/src/stats.ts:256-297 | an event is counted once if listened to and not at all otherwise |
| Storely.PipelineRoundTrip | core/storely/src/storely.ts:1151-1204 | decoding gives what the serializer makes of its own text, if compression and encryption undo themselves on the texts made from this envelope |
| CoreLaws.SetThenRead | core/storely/src/storely.ts:404-1076 | over any plain store, what was set is answered by `get`, `getMany`, `has` and `hasMany` as long as the core does not check or the lifetime is none, not positive or not over, and not afterwards |
| CoreLaws.SetRunGet | core/storely/src/storely.ts:404-1046 | the same after any run of calls on other keys, on either path |
| CoreLaws.OneSecond | core/storely/src/storely.ts:404-707 | one second given at time 0: answered at 1000, not at 1001 |
| CoreLaws.SetLeaves | core/storely/src/storely.ts:637-707 | `set` stores the value with the deadline its lifetime gives and touches no other row |
| CoreLaws.SetTells | core/storely/src/utils.ts:18-45 | the store is told the lifetime in effect |
| CoreLaws.DeleteTakes | core/storely/src/storely.ts:913-958 | `delete`, on either path, answers whether the cleaned key had a row and leaves exactly the other rows |
| CoreLaws.DeleteThenRead | core/storely/src/storely.ts:913-958 | a deleted key is found in no way of asking and not deleted again |
| CoreLaws.ReadsAnswer | core/storely/src/storely.ts:404-526 | `get` and `getMany` answer from the row of each key, checked or not |
| CoreLaws.PresenceAnswers | core/storely/src/storely.ts:1001-1076 | so do `has` and `hasMany` |
| CoreLaws.SetManyLeaves | core/storely/src/storely.ts:714-797 | `setMany` leaves under each key the last value given for it with its own deadline, and all other keys alone |
| CoreLaws.OneEventEach | core/storely/src/storely.ts:768-797 | as many set events as positions that succeeded, each with the cleaned key of one of them |
| CoreLaws.SetManyTells | core/storely/src/storely.ts:730-763 | what is sent for an entry: cleaned key, encoded envelope, lifetime in effect |
| CoreLaws.FailuresAreReported | core/storely/src/storely.ts:404-1046 | an error of the store or the pipeline is one `error` event and a call without effect for its caller |
| CoreLaws.RefusedWriteIsReported | core/storely/src/storely.ts:690-707 | the same for a write the store refuses |
| CoreLaws.BatchFailuresAreReported | core/storely/src/storely.ts:479-1076 | a batch read lets the store's error through, a batch `has` reports it and answers false throughout |
| CoreLaws.SettersDecide | core/storely/src/storely.ts:1251-1259 | after each setter the fast path is on exactly for the trivial pipeline without a sanitizer |
| Storely.CheckedReadsNeverExpired | core/storely/src/storely.ts:446-448 | with the expiry check a row past its deadline is neither returned nor reported present |
| Storely.ExpiredReadDeletes | core/storely/src/utils.ts:67-83 | a checked read of an expired row deletes the row of the key cleaned twice |
| Storely.ExpiredReadIsRightIff | core/storely/src/utils.ts:67-83 | it leaves the store without exactly the expired row if and only if cleaning again changes nothing, or neither key has a row when it deletes |
| Storely.ExpiredReadLosesOtherIff | core/storely/src/utils.ts:67-83 | it takes a row of another key if and only if the key cleaned again is another one that has a row |
| Storely.ExpiredReadLosesLiveRow | core/storely/src/storely.ts:404-473 | with the `sql` and `escape` patterns a read of the expired `-\n-x` deletes the live row of `x` |
| Storely.FastRefinesFull | core/storely/src/storely.ts:404-1046 | the fast path of `get`, `set`, `delete` and `has` gives the result, store and errors of the full path, for any adapter |
| Storely.RunsAgree | core/storely/src/storely.ts:1251-1259 | over every run of setters, sanitizers changing in place and calls, a core that takes the fast path is indistinguishable from one that never does, and its flag implies the trivial pipeline |
| Storely.CollectExpired | core/storely/src/utils.ts:67-83 | expired rows cleared in place, exactly their keys collected |
| Storely.Core.GetMany | core/storely/src/storely.ts:479-526 | the rows of one batch read decoded, the expired ones cleared and deleted in one call; an error of the store is the caller's |
| Storely.Core.HasMany | core/storely/src/storely.ts:1053-1076 | with the check, presence from the same rows; an error of the store makes all answers false |
| BatchReads.CheckedBatch | core/storely/src/storely.ts:1214-1244 | a checked batch read answers every live key with its value or presence and all others with nothing, and deletes exactly the rows of the expired keys cleaned twice |
| BatchReads.CheckedBatchIsRightIff | core/storely/src/utils.ts:67-83 | those are exactly the expired rows if and only if each is some expired key cleaned again, and cleaning expired keys again hits no other row |
| BatchReads.GetsInTurnAre | core/storely/src/storely.ts:404-473 | single reads in turn answer each key unless a read before it has taken its row |
| BatchReads.BatchIsGetsInTurnIff | core/storely/src/storely.ts:479-526 | a batch answers as single reads in turn if and only if no key with a live value is empty or taken by an expired one listed before it |
| BatchReads.BatchIsGetsInTurn | core/storely/src/storely.ts:479-526 | if cleaning changes no cleaned key, and none is empty, answers and rows are the same |
| BatchReads.BatchReturnsWhatItDeletes | core/storely/src/storely.ts:479-526 | the batch of `-\n-x` and `x` answers the live `x` and deletes it; in turn it is not found |
| Storely.Core.RecomputeFastPath | core/storely/src/storely.ts:1251-1259 | the flag as computed implies the trivial pipeline |
| Storely.Core.SetStore | core/storely/src/storely.ts:364-373 | the step of the run: the store replaced, the flag recomputed and sound |
| Storely.Core.SetSerialization | core/storely/src/storely.ts:246-249 | the same for the serializer |
| Storely.Core.SetCompression | core/storely/src/storely.ts:177-180 | the same for the compression |
| Storely.Core.SetEncryption | core/storely/src/storely.ts:194-197 | the same for the encryption |
| Storely.Core.SetSanitizer | core/storely/src/storely.ts:283-291 | the same for the sanitizer |
| Storely.Core.ReconfigureSanitizer | core/storely/src/sanitize.ts:173-182 | a sanitizer reconfigured in place: nothing is recomputed, the flag stays sound |
| Storely.Core.SetTtl | core/storely/src/storely.ts:379-386 | a default lifetime that is not positive is none |
| Storely.Core.Get | core/storely/src/storely.ts:404-473 | in every reachable configuration `get` behaves as the full path |
| Storely.Core.Set | core/storely/src/storely.ts:637-707 | in every reachable configuration `set` behaves as the full path, which `CoreLaws.SetThenRead` is about |
| Storely.Core.Delete | core/storely/src/storely.ts:913-958 | in every reachable configuration `delete`, fast branch included, behaves as the full path, which `CoreLaws.DeleteTakes` is about |
| Storely.Core.Has | core/storely/src/storely.ts:1001-1046 | in every reachable configuration `has` behaves as the full path |
| Storely.CompactedAt | core/storely/src/storely.ts:757-763 | an encodable entry stands at its compacted position |
| Storely.CompactedApart | core/storely/src/storely.ts:757-763 | no two entries share a compacted position |
| Storely.Core.EncodeEntries | core/storely/src/storely.ts:730-763 | the encodable entries in order with their original positions |
| Storely.Core.SetMany | core/storely/src/storely.ts:714-797 | the store gets exactly the encodable entries; result i is true exactly if entry i encoded and its compacted answer is no failure; one event per true position |
| Storely.Core.MapBack | core/storely/src/storely.ts:768-780 | answers go back to their original positions |
| Memory.ApartMeansNoSharedKey | core/storely/src/adapters/memory.ts:159-165 | no full key belongs to two prefixes exactly when neither starts with the other |
| Memory.MineIsLocal | core/storely/src/adapters/memory.ts:189-396 | every call answers from the adapter's own entries alone |
| Memory.OthersAreInvisible | core/storely/src/adapters/memory.ts:189-396 | no call of another adapter touches them |
| Memory.RunsDoNotInterfere | core/storely/src/adapters/memory.ts:189-396 | over any interleaved run an adapter is answered as if it were alone |
| Memory.InterferenceIff | core/storely/src/adapters/memory.ts:159-165 | the condition on the prefixes is exact |
| Memory.SeparatorFreeApart | core/storely/src/adapters/memory.ts:159-165 | distinct namespaces without the separator are apart, if the separator has no border |
| Memory.SeparatorFreeIff | core/storely/src/adapters/memory.ts:159-165 | and for all of them only then |
| MemoryLaws.SetThenGet | core/storely/src/adapters/memory.ts:189-219 | after a `set` and any calls that do not touch the key, `get` and `has` find the value while it has no lifetime, or zero, or the time is not past it, and nothing afterwards |
| MemoryLaws.DeleteThenGet | core/storely/src/adapters/memory.ts:245-272 | a deleted or cleared key is not found until it is set again |
| MemoryLaws.FullKeys | core/storely/src/adapters/memory.ts:159-165 | namespace, separator and key, in this order |
| Memory.ListingIsTheLiveEntries | core/storely/src/adapters/memory.ts:362-396 | iteration yields each live key as it was given, once, with its value |
| Memory.StorelyMemoryAdapter.KeyPrefixData | core/storely/src/adapters/memory.ts:172-181 | undoes the prefix and leaves foreign keys alone |
| Memory.StorelyMemoryAdapter.Get | core/storely/src/adapters/memory.ts:189-202 | the call as specified, with its lazy delete |
| Memory.StorelyMemoryAdapter.Set | core/storely/src/adapters/memory.ts:211-219 | the call as specified, no deadline for a lifetime of zero |
| Memory.StorelyMemoryAdapter.Delete | core/storely/src/adapters/memory.ts:245-248 | the call as specified |
| Memory.StorelyMemoryAdapter.Has | core/storely/src/adapters/memory.ts:279-292 | the call as specified, with its lazy delete |
| Memory.StorelyMemoryAdapter.SetMany | core/storely/src/adapters/memory.ts:225-238 | a batch is its calls in turn |
| Memory.StorelyMemoryAdapter.GetMany | core/storely/src/adapters/memory.ts:313-333 | a batch is its calls in turn |
| Memory.StorelyMemoryAdapter.HasMany | core/storely/src/adapters/memory.ts:299-306 | each key is asked at its own time, whatever calls run in between; undisturbed at one instant, a batch is its calls in turn |
| Memory.StorelyMemoryAdapter.DeleteMany | core/storely/src/adapters/memory.ts:340-355 | a batch is its calls in turn |
| Memory.StorelyMemoryAdapter.Clear | core/storely/src/adapters/memory.ts:255-272 | collecting and deleting removes exactly the entries of the namespace, all without one |
| Memory.StorelyMemoryAdapter.Iterate | core/storely/src/adapters/memory.ts:362-396 | yields the live entries of the namespace in order and deletes its dead ones |
| MemoryIterator.GeneratorsDoNotInterfere | core/storely/src/adapters/memory.ts:362-396 | over any run of calls and generator steps of adapters with prefixes apart, each adapter is answered, iteration included, as if it were alone |
| MemoryIterator.HasManyIsLocal | core/storely/src/adapters/memory.ts:299-306 | calls of adapters with prefixes apart between the keys of `hasMany` change none of its answers |
| MemoryIterator.NextIsLocal | core/storely/src/adapters/memory.ts:362-396 | a generator step yields from, and deletes in, the adapter's own entries alone |
| MemoryIterator.NextYieldsLive | core/storely/src/adapters/memory.ts:362-396 | what a step yields is live; it passes over no live entry of the namespace and deletes only expired ones of it |
| MemoryIterator.Open | core/storely/src/adapters/memory.ts:362-396 | a generator starts before the first entry |
| MemoryIterator.Next | core/storely/src/adapters/memory.ts:362-396 | the loop up to the next `yield` is that step, in place, on the map's own cursor |
| KeyFormat.FormatIsIdempotent | storage/dynamo/src/index.ts:187-198 | formatting twice is formatting once |
| KeyFormat.SameRowIff | storage/etcd/src/index.ts:237-248 | when two keys share a row |
| KeyFormat.FormattedKeys | storage/etcd/src/index.ts:237-248 | namespace, separator and key, in this order, unless the key begins with both |
| Etcd.HandedOutHasHalf | storage/etcd/src/index.ts:365-379 | every lease handed out has more than half its period left |
| Etcd.RunKeepsLeases | storage/etcd/src/index.ts:365-379 | what is known of leases holds in every reachable state |
| Etcd.AtMostTwoLeases | storage/etcd/src/index.ts:365-379 | at any instant at most two leases of a bucket are alive |
| Etcd.ReadAfterSet | storage/etcd/src/index.ts:253-309 | the exact answer at any later time, whatever happens to other keys |
| Etcd.ReadAfterLastingSet | storage/etcd/src/index.ts:343-358 | without a lifetime the value is read at any later time |
| Etcd.ReadAfterDelete | storage/etcd/src/index.ts:407-421 | a deleted row is missing until it is written again |
| Etcd.ReadableForHalfItsTtl | storage/etcd/src/index.ts:343-379 | in any reachable state, a value set with a positive lifetime is readable through half of it and never after it |
| Etcd.FullTtlIff | storage/etcd/src/index.ts:365-379 | it is readable for all of it exactly if the cached lease, when it is reused, ends after the deadline, or the new lease's whole seconds exceed the lifetime |
| Etcd.ReuseCutsTtl | storage/etcd/src/index.ts:360-375 | of two keys set 400 ms apart for one second the second is gone after 600 ms |
| Etcd.WholeSecondsEndEarly | storage/etcd/src/index.ts:365-379 | on a new lease a lifetime of whole seconds is over at its deadline, not after it |
| Etcd.StorelyEtcd.GetOrCreateLeaseForTtl | storage/etcd/src/index.ts:365-379 | reuses or grants a lease as specified |
| Etcd.StorelyEtcd.Set | storage/etcd/src/index.ts:343-358 | the row with its envelope and lease |
| Etcd.StorelyEtcd.Get | storage/etcd/src/index.ts:291-309 | what is readable, and the deletion of a row past its deadline |
| Etcd.StorelyEtcd.Has | storage/etcd/src/index.ts:502-519 | the same for presence |
| Etcd.StorelyEtcd.Delete | storage/etcd/src/index.ts:407-421 | true exactly for a row the server still has |
| Dynamo.ExpiredFromWholeSecond | storage/dynamo/src/index.ts:206-214 | expired no later than the deadline and less than a second before it; the server's own expiry comes after it |
| Dynamo.DeadOnArrivalIff | storage/dynamo/src/index.ts:326-331 | when a row is expired as soon as it is written |
| Dynamo.HalfSecondIsOver | storage/dynamo/src/index.ts:326-331 | half a second given 100 ms after a whole one is over at once |
| Dynamo.DeletingExpiredIsInvisible | storage/dynamo/src/index.ts:326-331 | deleting expired rows changes no later answer |
| Dynamo.GetsInTurnAre | storage/dynamo/src/index.ts:311-340 | single reads in turn answer as in the starting table, duplicates included |
| Dynamo.HasManyLeavesTheTableIff | storage/dynamo/src/index.ts:565-585 | when `hasMany` leaves the table of single calls |
| Dynamo.HasManyLeavesValueless | storage/dynamo/src/index.ts:565-585 | an expired row without a value stays |
| Dynamo.EverythingIsAnswered | storage/dynamo/src/index.ts:356-378 | a server that rejects nothing and answers something each time answers everything |
| Dynamo.StorelyDynamo.Set | storage/dynamo/src/index.ts:206-235 | afterwards the key answers its value at every time before the whole second of its deadline and nothing from then on; every other row as before |
| Dynamo.StorelyDynamo.Get | storage/dynamo/src/index.ts:311-340 | the live value, deleting the row when it is expired |
| Dynamo.StorelyDynamo.Has | storage/dynamo/src/index.ts:500-527 | the same for presence |
| Dynamo.StorelyDynamo.FetchChunk | storage/dynamo/src/index.ts:358-377 | the retry loop ends and fetches exactly the rows of a chunk, unless a request is rejected |
| Dynamo.StorelyDynamo.FetchAll | storage/dynamo/src/index.ts:353-378 | the chunk loop fetches exactly the rows asked for, unless a request is rejected |
| Dynamo.StorelyDynamo.GetMany | storage/dynamo/src/index.ts:347-409 | the answers of single reads however the server splits, expired rows deleted under their own ids |
| Dynamo.StorelyDynamo.HasMany | storage/dynamo/src/index.ts:535-593 | the same for presence |
| Dynamo.StorelyDynamo.DeleteMany | storage/dynamo/src/index.ts:443-458 | all listed rows gone, true for each present row the first time it is listed |
| Valkey.SetKeyCollidesIff | storage/valkey/src/index.ts:654-699 | an adapter's data never has the key of its own tracking set; that of any other adapter, tracked or not, has it exactly in the two cases named |
| Valkey.SetKeyCollisions | storage/valkey/src/index.ts:649-699 | an input for each of the two cases |
| Valkey.StoredNames | storage/valkey/src/index.ts:654-699 | the names of data, tracking set and old-format set |
| Valkey.DeletesInTurnAre | storage/valkey/src/index.ts:392-409 | deletes in turn are true for a live key the first time |
| Valkey.WriteIsFound | storage/valkey/src/index.ts:250-283 | an accepted write is found until its lifetime is over and changes no other data |
| Valkey.SetsLeave | storage/valkey/src/index.ts:299-383 | what a batch leaves under a key: the last value given and taken, with its own end, or what was there before |
| Valkey.ExecWrites | storage/valkey/src/index.ts:349-377 | strided replies of a write transaction belong to their entries |
| Valkey.ExecDeletes | storage/valkey/src/index.ts:435-455 | strided replies of a delete transaction belong to their keys |
| Valkey.RunKeepsTracking | storage/valkey/src/index.ts:250-283 | over runs of the adapter's own steps, those of harmless neighbours and foreign ones that spare its set and keys, each key of the namespace on the server is tracked, and only keys of the namespace are |
| Valkey.SparesIff | storage/valkey/src/index.ts:654-699 | which adapters never store or track under the set's key or under a key of the namespace |
| Valkey.HarmlessIff | storage/valkey/src/index.ts:649-699 | exactly those adapters never end another's tracking by a write |
| Valkey.NeighbourKeepsTracking | storage/valkey/src/index.ts:250-493 | no set or delete of such an adapter, single or batched, ends tracking |
| Valkey.StepKeepsTrackingIff | storage/valkey/src/index.ts:250-283 | of all steps, foreign ones on any key included, exactly those end complete tracking that leave under the set's key a text or a set that misses a key or names another's, or leave something under an untracked key of the namespace |
| Valkey.ClearLeavesNone | storage/valkey/src/index.ts:543-566 | after any such run `clear` goes through, leaves no key of the namespace, and of the others exactly those the old-format set does not name |
| Valkey.ClearTakes | storage/valkey/src/index.ts:543-566 | the same of any tracked state: which rows go, and that the others keep their cells |
| Valkey.TextUnderSetKeyStopsClear | storage/valkey/src/index.ts:543-566 | after a foreign text under the set's key `clear` removes nothing and fails |
| Valkey.NeighbourStopsClear | storage/valkey/src/index.ts:649-699 | `set` of key `b` in namespace `a` does this to an adapter of namespace `a:b`, whose live key stays |
| Valkey.NeighbourEscapesClear | storage/valkey/src/index.ts:543-566 | a key set in namespace `a:b` belongs to namespace `a` untracked: `clear` of `a` goes through and leaves it live |
| Valkey.StorelyValkey.Set | storage/valkey/src/index.ts:250-283 | one write, tracked; its answer does not depend on the server when tracking |
| Valkey.StorelyValkey.SetMany | storage/valkey/src/index.ts:299-383 | the writes in turn; undefined values reported true, others true exactly if accepted |
| Valkey.StorelyValkey.Delete | storage/valkey/src/index.ts:392-409 | true exactly for a live key |
| Valkey.StorelyValkey.DeleteMany | storage/valkey/src/index.ts:423-493 | chunks of a thousand give the answers and the store of deleting one at a time, duplicates included |
| Valkey.StorelyValkey.RunPipeline | storage/valkey/src/index.ts:435-455 | one chunk, its answers written to its positions |
| Valkey.StorelyValkey.Clear | storage/valkey/src/index.ts:543-566 | the tracked keys, those of the old-format set and both sets are gone; it fails and removes nothing if the tracking set's key holds a text |

## Left out

- JsonSerializer.RoundTrip: numbers are the numerals that denote them, so the conversion between doubles and texts is not modelled; strings are sequences of Unicode scalar values, so lone surrogates are not; objects with `toJSON`, and the reordering of integer-like property names, are not. A stored text with malformed base64, which the serializer never writes, is an error here whichever decoder runs.
- Texts.IntRoundTrip: `BigInt` also accepts hexadecimal, octal and binary literals and surrounding blanks, which no stored bigint contains.
- Sqlite.StorelySqlite.Set: values that are not texts are not modelled.
- SqliteIterator.Iterate: the caller may abandon the iteration, which is any shorter prefix of the same pages.
- RedisCluster.StorelyRedis.DeleteMany: a call with a failing slot answers here after the other slots are done, in the source possibly before; the same holds of the other batches. PX arguments are kept with the cell and not clocked.
- BigMap.BigMap.Resize: sizes are integers below 2^32, the longest array the language has; a hash that gives NaN is not modelled.
- Stats.StorelyStats.Emit: the maximum number of entries is fixed for the lifetime of the object.
- Storely.Core.SetMany: hooks are absent, and errors raised while entries are encoded concurrently are listed in entry order.
- Storely.Core.GetMany: the store answers a batch read with one row per key, if it answers.
- Storely.Core.Get: hooks, hit and miss telemetry are absent; a stored text that parses to something other than an envelope is not modelled.
- Memory.StorelyMemoryAdapter.Iterate: one uninterrupted step at one instant; `MemoryIterator` has the generator's own steps.
- MemoryIterator.Next: one generator is open on the shared map at a time and is not asked again after its end; stores without `keys` or `entries` are not modelled.
- Etcd.StorelyEtcd.Set: a lifetime configured for the whole adapter, which attaches every key to one lease made by the constructor, is not modelled; nor are failing requests.
- Dynamo.StorelyDynamo.DeleteMany: the concurrent single deletes run in list order, which only matters to the answers of keys listed twice.
- Dynamo.StorelyDynamo.GetMany: the table does not change between the requests of one call.
- Valkey.StorelyValkey.SetMany: a transaction that fails as a whole, cluster mode, and `clear` without tracking are not modelled; `clear` is one step. A neighbour's `clear` occurs in a run as the foreign deletions it comes to.
- The adapters for KeyDB, PostgreSQL, MySQL and MongoDB repeat the slot logic or the pagination and batches proved here.
- The RocksDB, Memcache and bridge adapters mostly delegate to libraries or to the user's store.
- Encryption and compression are any transformations and their inverses; hooks, deprecated aliases, OpenTelemetry, capability detection and `throwOnErrors` are plumbing.
- Connections, timeouts, cursor scans, SQL texts and drivers are I/O; the slot function, the stripping behind the sanitizer's memos and custom hash functions are arbitrary deterministic functions.
- DynamoDB `setMany`, Etcd `setMany`, `clear` and `iterator` would add only easier members.

# MemFS file loader, modelled in Dafny

`MemFS\File` (src/MemFS/File.php) stands in for PHP's `include`/`require`:
it keeps file contents in a Memcached pool under the key `md5($filename)`.
`load` derives one key per requested name and multi-gets them. It hands the
keys it could not get to `save`, which reads each file, checks it, normalises
its closing tag and writes it to the pool. `load` then merges and evaluates
the resources. `once` loads only a name whose key the pool does not hold,
`flush` deletes the keys of the names it is given (nested lists too), and
`flushAll` empties the pool.

The model has six modules:

- `Wrappers`: `Option` and `Result`.
- `PhpStrings`: `strpos`, `strrpos` and `trim` with PHP's default character
  list, each with its contract (first or last occurrence, stripped prefix and
  suffix).
- `ClosingTag`: the opening-tag test and the closing-tag normalisation of
  `save`, a pure string function, with its shape and idempotence.
- `KeyTable`: the ordered PHP array `$keys` as a sequence of (key, filename)
  entries, with assignment (`$keys[$k] = $f`), `array_diff_key` and the key
  derivation loop stated as functions.
- `LoadProtocol`: the behaviour of one iteration of `save`, of a whole
  `save` and of `load`, stated on values (`Prepare`, `Saved`, `Loaded`,
  `Onced`, `FlushKeys`), plus the lemmas saying what these guarantee.
- `MemFS`: the class `File`. Its field `cache` is the pool's contents. Its
  methods loop and update `cache` as the PHP does, and each is proved to leave
  exactly the state the `LoadProtocol` function describes.

The collaborators the class cannot see are parameters:

- **`md5` and `urlencode`**: functions fixed at construction.
- **`read`**: gives the answer of `file_get_contents` for an address; `None`
  stands for `false`.
- **`getOk`**: the boolean the multi-get returns.
- **`fetched`**: a ghost field that logs every address handed to `read`, so
  "performs no read" can be stated.
- **Exceptions**: become `Err` results carrying the address read.
- **Return value**: on normal return `Load` hands back the resource map the
  PHP would `eval`.

The model follows the code where the code and its docblock disagree. A read
that yields nothing usable (`false`, `""` or `"0"`) with `$isRequired` false
is not skipped. Its text has no `<?`, so `save` throws the opening-tag
exception at line 116 (`LoadProtocol.UnreadableAlwaysFails`,
`LoadProtocol.LoadedUnreadableThrows`). Writes made for earlier keys of the
same call stay in the pool.

## Model

| member | source | states |
|---|---|---|
| PhpStrings.StrPos | src/MemFS/File.php:106 | `strpos`: the result is an occurrence of the needle with none before it; it is `None` exactly when the needle occurs nowhere |
| PhpStrings.StrRPos | src/MemFS/File.php:121 | `strrpos`: the result is an occurrence with none after it; `None` exactly when there is no occurrence |
| PhpStrings.TrimLeft | src/MemFS/File.php:122 | the result is a suffix of the input; everything stripped is trim whitespace; the result does not start with trim whitespace |
| PhpStrings.TrimRight | src/MemFS/File.php:122 | the result is a prefix of the input; everything stripped is trim whitespace; the result does not end with trim whitespace |
| PhpStrings.TrimEmptyIff | src/MemFS/File.php:122 | `trim($s) == ''` exactly when every character of `$s` is one of " \t\n\r\0\x0B" |
| ClosingTag.NeedsClosingTagIff | src/MemFS/File.php:121-124 | the append condition (no `?>`, or `trim` of what follows the last `?>` is not empty) holds exactly when the content does not end cleanly on a closing tag |
| ClosingTag.AppendixEndsCleanly | src/MemFS/File.php:123 | any content followed by "\n?>\n" ends cleanly: that `?>` is the last one and only whitespace follows it |
| ClosingTag.CloseTagShape | src/MemFS/File.php:121-124 | the stored value is the raw content, unchanged exactly when it already ends cleanly, or else the raw content plus "\n?>\n"; the result always ends cleanly and keeps an opening tag the input had |
| ClosingTag.CloseTagIdempotent | src/MemFS/File.php:121-124 | normalising normalised content changes nothing |
| KeyTable.Assign | src/MemFS/File.php:66 | `$keys[$k] = $f`: the key set gains `$k`; a new key is appended at the end; an existing key keeps its position and gets the new name; distinct keys stay distinct |
| KeyTable.KeysOf | src/MemFS/File.php:64-67 | the derived table has one entry per distinct key; its keys are exactly `md5` of the requested names; each entry's name is an original requested name (not the urlencoded address) whose hash is the entry's key |
| KeyTable.DiffKey | src/MemFS/File.php:80 | `array_diff_key`: keeps exactly the entries whose key the map lacks, so its key set is the difference, and keeps them in their original order (a subsequence, `SubSeq`); distinct keys stay distinct |
| KeyTable.SubSeqOrder | src/MemFS/File.php:80 | two entries of a subsequence sit in the original table in the same relative order |
| KeyTable.KeysOfOrder | src/MemFS/File.php:64-67 | the derived table lists keys in the order of their first request: whenever one entry precedes another, some request of the first comes before every request of the second |
| KeyTable.DistinctKeysCount | src/MemFS/File.php:79 | `count($keys)` equals the number of distinct keys |
| KeyTable.DuplicateCollapses | src/MemFS/File.php:64-67 | with an injective hash, requesting a name already in the batch adds no entry |
| KeyTable.EveryNameHasEntry | src/MemFS/File.php:64-67 | with an injective hash, every requested name has its own entry under its own hash |
| LoadProtocol.UriTest | src/MemFS/File.php:106-108 | the test `strpos($filename, 'http') === 0` is exactly "starts with http" |
| LoadProtocol.Prepare | src/MemFS/File.php:111-124 | one iteration's checks succeed exactly when the text read has an opening tag; the value is the text, possibly plus "\n?>\n", has an opening tag and ends cleanly; an exception carries the address read |
| LoadProtocol.FalsyHasNoOpeningTag | src/MemFS/File.php:110-118 | a falsy read (`false`, `""`, `"0"`) has no opening tag |
| LoadProtocol.UnreadableAlwaysFails | src/MemFS/File.php:110-118 | a falsy read always throws: the required-resource exception when required, the opening-tag exception otherwise |
| LoadProtocol.NoOpeningTagFails | src/MemFS/File.php:116-118 | content without `<?` that is not falsy throws the opening-tag exception, whatever `$isRequired` says |
| LoadProtocol.SaveIteration | src/MemFS/File.php:104-133 | iteration i reads its address; if preparing fails, that exception ends `save` and no write is made; otherwise the prepared content is written under the entry's key |
| LoadProtocol.SavedAfterFailure | src/MemFS/File.php:111-118 | once `save` has thrown, the remaining entries change nothing |
| LoadProtocol.SavedWrites | src/MemFS/File.php:127-132 | `save` writes only keys of its batch, each with the content that entry's iteration prepared; on normal return it has written every key of the batch |
| LoadProtocol.SavedKeys | src/MemFS/File.php:127-132 | the keys written are among the batch's keys, and are all of them on normal return |
| LoadProtocol.SavedValues | src/MemFS/File.php:127-132 | every value written is what some entry of the batch prepared |
| LoadProtocol.SavedReads | src/MemFS/File.php:110 | `save` reads at most one address per entry, the i-th read being entry i's address; on normal return it reads exactly one per entry |
| LoadProtocol.SavedSucceedsIff | src/MemFS/File.php:104-133 | `save` returns normally exactly when every entry's iteration succeeds |
| LoadProtocol.SavedStopsAtFirstFailure | src/MemFS/File.php:104-133 | the first failing entry decides the exception; writes and reads of earlier entries remain; its own address is read and nothing is written for it or after it |
| LoadProtocol.SavedWellFormed | src/MemFS/File.php:116-132 | every value `save` writes has an opening tag and ends cleanly |
| LoadProtocol.SavedCount | src/MemFS/File.php:74-79 | a `save` that returns normally hands back one resource per entry, so after a failed multi-get the second `save` never runs |
| LoadProtocol.HitsCount | src/MemFS/File.php:79-80 | when the multi-get returns as many resources as there are keys, nothing is left to save |
| LoadProtocol.LoadedGetFails | src/MemFS/File.php:73-75 | unfolding of `Loaded` for the failed multi-get branch: `load` saves every derived entry and returns what `save` returned |
| LoadProtocol.LoadedGetSucceeds | src/MemFS/File.php:73-82 | unfolding of `Loaded` for the successful multi-get branch: `load` saves the entries not returned and merges the result into the hits |
| LoadProtocol.FoundKeys | src/MemFS/File.php:73 | the multi-get returns exactly the derived keys the cache holds, with the cached values, and nothing when it fails |
| LoadProtocol.PendingKeys | src/MemFS/File.php:73-80 | the entries `load` hands to `save` are exactly the derived keys the multi-get did not return (all of them when it fails), one entry each |
| LoadProtocol.LoadedComplete | src/MemFS/File.php:64-82 | on normal return the resource map has exactly the derived keys, every derived key is in the cache, and each resource is what the cache now holds |
| LoadProtocol.LoadedFrame | src/MemFS/File.php:59-133 | `load` never writes or deletes a key outside the batch, whether it returns or throws |
| LoadProtocol.LoadedKeepsHits | src/MemFS/File.php:73-81 | after a successful multi-get, a key it returned is not among the entries handed to `save` (so its file is not read), is not rewritten, and its resource is the value the cache held |
| LoadProtocol.PendingInRequestOrder | src/MemFS/File.php:73-80 | the entries `save` visits (its loop at line 104 goes through them in array order), after either multi-get outcome, come in the order of their first request |
| LoadProtocol.LoadedReads | src/MemFS/File.php:73-82 | `load` reads at most one address per key it did not get; on normal return exactly one per such key |
| LoadProtocol.LoadedWellFormed | src/MemFS/File.php:116-132 | every value `load` leaves in the cache is either one that was already there or content with an opening tag that ends cleanly |
| LoadProtocol.LoadedUnreadableThrows | src/MemFS/File.php:110-118 | with an injective hash, a requested name that must be fetched and whose read is falsy makes `load` throw, whatever `$isRequired` says |
| LoadProtocol.LoadedAllHits | src/MemFS/File.php:73-82 | when the multi-get succeeds and the cache holds every derived key, `load` reads nothing, writes nothing and returns the cached values |
| LoadProtocol.AllHitsPending | src/MemFS/File.php:79-80 | when the cache holds every derived key, no entry is left to save |
| LoadProtocol.AllHitsFound | src/MemFS/File.php:73 | when the cache holds every derived key, the multi-get returns the cache restricted to those keys |
| LoadProtocol.LoadedAgain | src/MemFS/File.php:59-89 | after a batch loaded normally, loading it again with a successful multi-get reads nothing, writes nothing and returns the same resources |
| LoadProtocol.LoadedStopsAtFirstFailure | src/MemFS/File.php:73-82 | when an iteration of `save` throws, `load` throws that exception; the cache keeps the earlier writes of that call and gets none for the failing key, whose address is the last one read |
| LoadProtocol.FlushKeysSnoc | src/MemFS/File.php:161-164 | flushing one more list item deletes its keys as well |
| LoadProtocol.FlushKeysOfBatch | src/MemFS/File.php:159-168 | flushing a flat list of names deletes exactly the keys `load` derives for that batch |
| LoadProtocol.FlushUndoesLoad | src/MemFS/File.php:159-168 | loading a batch, then flushing its names, leaves the cache as flushing alone would |
| LoadProtocol.OnceAfterLoad | src/MemFS/File.php:146-152 | after a batch loaded normally, `once` of any of its names reads nothing and writes nothing |
| LoadProtocol.OnceAfterFlush | src/MemFS/File.php:146-152 | unfolding of `Onced` for the branch where the key is absent: after its name is flushed, `once` behaves as `load` of that name |
| MemFS.File.constructor | src/MemFS/File.php:48-51 | the object starts with the pool's contents as its cache and no reads |
| MemFS.File.DeriveKeys | src/MemFS/File.php:61-67 | the key-building loop yields `KeysOf` of the names |
| MemFS.File.Save | src/MemFS/File.php:99-137 | the loop leaves the cache as the old cache plus `Saved`'s writes, logs exactly its reads, and returns the written resources or the first exception |
| MemFS.File.Load | src/MemFS/File.php:59-83 | the cache, the reads and the result are those of `Loaded` for the old cache and the multi-get flag |
| MemFS.File.Once | src/MemFS/File.php:146-152 | the cache, the reads and the result are those of `Onced`: nothing when the key is stored, otherwise `load` of the name |
| MemFS.File.Flush | src/MemFS/File.php:159-168 | the cache loses exactly the keys of every name in the argument, nested lists included; nothing is read |
| MemFS.File.FlushAll | src/MemFS/File.php:173-176 | the cache is empty; nothing is read |

## Left out

- `eval` of the loaded resources (src/MemFS/File.php:84-88) executes code and has no contract to state. `Load` returns the resource map instead. A Dafny map has no order, so the model drops the order `array_merge` gives `$resources` (src/MemFS/File.php:81): the hits first, in multi-get order, then the saved entries in `$keys` order. That is the order in which `eval` runs them (src/MemFS/File.php:85-87). The order of the saved entries themselves is stated by `LoadProtocol.PendingInRequestOrder`.
- The Memcached wrapper is reduced to the map `cache`. Left out: server and pool setup in the constructor, and how `get` computes its boolean. `get` is modelled as the cache restricted to the requested keys, with the flag as the parameter `getOk`. In the failure case `$resources` is modelled as empty.
- Failed `set` and `delete` calls are not modelled: each write or delete is assumed to succeed.
- `md5`, `urlencode` and `file_get_contents` are opaque functions. No hash is computed, and hash collisions are excluded only where a lemma asks for `Injective`.
- The check-then-act race in `once` between concurrent processes is left out, because concurrency is out of scope.
- The benchmark script (benchmark/run.php) is not part of this model: it creates temp files, times with `microtime` and prints.
- MemFS.File.Load: takes a sequence of names. A single name is the one-element sequence, which is what `(array)$filename` gives. A nested array passed to `load` (which `md5` would reject) is not modelled.
- MemFS.File.Once: takes one name. The array form of `$filename` in `once` is not modelled, because `md5` of an array is not a string key.
- PHP strings are byte strings. Here they are sequences of characters; no encoding is modelled.
- MemFS.File.Save: the checks of one iteration (lines 111-124) are the function `LoadProtocol.Prepare`, called from the loop, and are not inlined statement by statement. Its branches are the code's branches, in the same order.

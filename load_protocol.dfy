/** The cache-or-fetch protocol of `MemFS\File` stated on values: what one
    iteration of `save` does with a read result, what a whole `save` writes and
    reads, and what `load` leaves in the cache and hands back. The class in
    module MemFS is proved to follow these functions; the lemmas here state
    the properties of the protocol. */
module LoadProtocol {
  import opened Wrappers
  import opened PhpStrings
  import opened ClosingTag
  import opened KeyTable

  /** The two exceptions `save` throws, each carrying the address it read. */
  datatype LoadError =
    | Unavailable(address: string)   // "We are unable to load required resource: "
    | NoOpeningTag(address: string)  // "Requested resource must have opening tags: "

  /** The address `save` hands to `file_get_contents`: a name starting with
      "http" is passed through `urlencode`, any other name is used as is. */
  function Address(urlencode: string -> string, filename: string): string {
    if IsUri(filename) then urlencode(filename) else filename
  }

  /** The name starts with "http". */
  predicate IsUri(filename: string) {
    |filename| >= 4 && filename[..4] == "http"
  }

  /** The test `strpos($filename, 'http') === 0` is exactly the prefix test. */
  lemma UriTest(filename: string)
    ensures StrPos(filename, "http") == Some(0) <==> IsUri(filename)
  {
    if IsUri(filename) {
      assert OccursAt(filename, "http", 0);
    }
  }

  /** `!$resource` for a `file_get_contents` result: `false`, "" or "0". */
  predicate Falsy(raw: Option<string>) {
    raw.None? || raw.value == "" || raw.value == "0"
  }

  /** The string PHP's `strpos` sees for a read result: `false` becomes "". */
  function Text(raw: Option<string>): string {
    if raw.None? then "" else raw.value
  }

  /** One iteration of the loop in `save`, up to the cache write: the
      required-resource check, the opening-tag check and the closing-tag
      normalisation. It succeeds exactly when the text read has an opening
      tag, and then yields that text, possibly followed by the appendix, in a
      form that ends cleanly. */
  function Prepare(raw: Option<string>, address: string, isRequired: bool): (r: Result<string, LoadError>)
    ensures r.Ok? <==> HasOpeningTag(Text(raw))
    ensures r.Ok? ==> r.value == Text(raw) || r.value == Text(raw) + Appendix
    ensures r.Ok? ==> HasOpeningTag(r.value) && EndsCleanly(r.value)
    ensures r.Err? ==> r.error.address == address
  {
    if Falsy(raw) && isRequired then
      assert !HasOpeningTag(Text(raw)) by { FalsyHasNoOpeningTag(raw); }
      Err(Unavailable(address))
    else if !HasOpeningTag(Text(raw)) then Err(NoOpeningTag(address))
    else
      CloseTagShape(Text(raw));
      Ok(CloseTag(Text(raw)))
  }

  lemma FalsyHasNoOpeningTag(raw: Option<string>)
    requires Falsy(raw)
    ensures !HasOpeningTag(Text(raw))
  {
    assert forall j: nat :: !OccursAt(Text(raw), "<?", j);
  }

  /** A read that yields nothing usable fails whatever `$isRequired` says:
      with the required-resource exception when it is required, with the
      opening-tag exception otherwise. There is no path that skips it. */
  lemma UnreadableAlwaysFails(raw: Option<string>, address: string, isRequired: bool)
    requires Falsy(raw)
    ensures Prepare(raw, address, isRequired) ==
              Err(if isRequired then Unavailable(address) else NoOpeningTag(address))
  {
    FalsyHasNoOpeningTag(raw);
  }

  /** Content without an opening tag fails with the opening-tag exception
      unless the required-resource check fired first. */
  lemma NoOpeningTagFails(raw: Option<string>, address: string, isRequired: bool)
    requires !Falsy(raw) && !HasOpeningTag(Text(raw))
    ensures Prepare(raw, address, isRequired) == Err(NoOpeningTag(address))
  {
  }

  /** What one iteration of `save` does with an entry: the address it reads
      and the content it goes on to cache or the exception it throws. */
  datatype Attempt = Attempt(address: string, outcome: Result<string, LoadError>)

  /** The iteration of `save` for one entry: read its address, then prepare
      what was read. */
  function Attempted(e: Entry, isRequired: bool, urlencode: string -> string, read: string -> Option<string>): Attempt {
    var address := Address(urlencode, e.filename);
    Attempt(address, Prepare(read(address), address, isRequired))
  }

  /** The iteration of `save` for the given flag, encoder and file reader. */
  function SaveStep(isRequired: bool, urlencode: string -> string, read: string -> Option<string>): Entry -> Attempt {
    (e: Entry) => Attempted(e, isRequired, urlencode, read)
  }

  /** What a call of `save` did: the cache writes it made, the addresses it
      read in order, and the exception it ended with, if any. */
  datatype Saving = Saving(stored: map<string, string>, addresses: seq<string>, failure: Option<LoadError>)

  /** One more iteration of `save` after the outcome `before` of the earlier
      ones: nothing once it has thrown; otherwise the entry's address is read
      and its content written, or its exception thrown. */
  function Extend(before: Saving, e: Entry, a: Attempt): Saving {
    if before.failure.Some? then before
    else
      match a.outcome
      case Err(error) => Saving(before.stored, before.addresses + [a.address], Some(error))
      case Ok(content) => Saving(before.stored[e.key := content], before.addresses + [a.address], None)
  }

  /** `save($todo, $isRequired)` run over the entries in order, each handled
      by `step`: every entry's address is read; the first failure stops the
      loop, keeping the writes already made; otherwise the prepared content is
      written under the entry's key. */
  function Saved(todo: seq<Entry>, step: Entry -> Attempt): Saving
    decreases |todo|
  {
    if todo == [] then Saving(map[], [], None)
    else Extend(Saved(todo[..|todo| - 1], step), todo[|todo| - 1], step(todo[|todo| - 1]))
  }

  /** The outcome of the first i + 1 iterations extends that of the first i. */
  lemma SavedPrefix(todo: seq<Entry>, i: nat, step: Entry -> Attempt)
    requires i < |todo|
    ensures Saved(todo[..i + 1], step) == Extend(Saved(todo[..i], step), todo[i], step(todo[i]))
  {
    assert todo[..i + 1][..i] == todo[..i];
  }

  /** Iteration i of `save`: its address is read; when preparing what was
      read fails, that exception ends the call with the earlier writes kept,
      otherwise the prepared content is written under the entry's key. */
  lemma SaveIteration(todo: seq<Entry>, i: nat, isRequired: bool, urlencode: string -> string,
                      read: string -> Option<string>)
    requires i < |todo|
    requires Saved(todo[..i], SaveStep(isRequired, urlencode, read)).failure.None?
    ensures var step := SaveStep(isRequired, urlencode, read);
      var before := Saved(todo[..i], step);
      var after := Saved(todo[..i + 1], step);
      var address := Address(urlencode, todo[i].filename);
      var outcome := Prepare(read(address), address, isRequired);
      && after.addresses == before.addresses + [address]
      && (outcome.Err? ==> after.failure == Some(outcome.error) && after.stored == before.stored)
      && (outcome.Ok? ==> after.failure.None? && after.stored == before.stored[todo[i].key := outcome.value])
  {
    SavedPrefix(todo, i, SaveStep(isRequired, urlencode, read));
  }

  /** Once `save` has thrown, later entries change nothing: it is the whole
      outcome. */
  lemma {:induction false} SavedAfterFailure(todo: seq<Entry>, i: nat, step: Entry -> Attempt)
    requires i <= |todo|
    requires Saved(todo[..i], step).failure.Some?
    ensures Saved(todo, step) == Saved(todo[..i], step)
    decreases |todo| - i
  {
    if i < |todo| {
      assert todo[..i + 1][..i] == todo[..i];
      SavedAfterFailure(todo, i + 1, step);
    } else {
      assert todo[..i] == todo;
    }
  }

  /** Every write `save` makes is under the key of an entry of the batch, of
      the content that entry's iteration prepared; when it returns normally it
      has written every key of the batch. */
  lemma SavedWrites(todo: seq<Entry>, step: Entry -> Attempt)
    ensures var o := Saved(todo, step);
      && o.stored.Keys <= Keys(todo)
      && (forall k :: k in o.stored ==> exists e :: e in todo && e.key == k && step(e).outcome == Ok(o.stored[k]))
      && (o.failure.None? ==> o.stored.Keys == Keys(todo))
  {
    SavedKeys(todo, step);
    SavedValues(todo, step);
  }

  /** The keys `save` writes: some of the batch's, all of them when it
      returns normally. */
  lemma {:induction false} SavedKeys(todo: seq<Entry>, step: Entry -> Attempt)
    ensures var o := Saved(todo, step);
      && o.stored.Keys <= Keys(todo)
      && (o.failure.None? ==> o.stored.Keys == Keys(todo))
    decreases |todo|
  {
    if todo != [] {
      var n := |todo| - 1;
      SavedKeys(todo[..n], step);
      KeysSnoc(todo[..n], todo[n]);
      assert todo == todo[..n] + [todo[n]];
    }
  }

  /** Every value `save` writes is what some entry's iteration prepared. */
  lemma {:induction false} SavedValues(todo: seq<Entry>, step: Entry -> Attempt)
    ensures forall k :: k in Saved(todo, step).stored ==>
              exists e :: e in todo && e.key == k && step(e).outcome == Ok(Saved(todo, step).stored[k])
    decreases |todo|
  {
    if todo != [] {
      var n := |todo| - 1;
      var init := todo[..n];
      var e := todo[n];
      SavedValues(init, step);
      assert todo == init + [e];
      var before := Saved(init, step);
      var o := Saved(todo, step);
      forall k | k in o.stored
        ensures exists e' :: e' in todo && e'.key == k && step(e').outcome == Ok(o.stored[k])
      {
        if before.failure.None? && step(e).outcome.Ok? && k == e.key {
          assert e in todo;
        } else {
          assert k in before.stored && o.stored[k] == before.stored[k];
          var e' :| e' in init && e'.key == k && step(e').outcome == Ok(before.stored[k]);
          assert e' in todo;
        }
      }
    }
  }

  /** `save` reads one address per entry it reaches, in order; when it
      returns normally it has read every entry's address. */
  lemma {:induction false} SavedReads(todo: seq<Entry>, step: Entry -> Attempt)
    ensures var o := Saved(todo, step);
      && |o.addresses| <= |todo|
      && (forall i :: 0 <= i < |o.addresses| ==> o.addresses[i] == step(todo[i]).address)
      && (o.failure.None? ==> |o.addresses| == |todo|)
    decreases |todo|
  {
    if todo != [] {
      var n := |todo| - 1;
      var init := todo[..n];
      SavedReads(init, step);
      var before := Saved(init, step);
      var o := Saved(todo, step);
      forall i | 0 <= i < |o.addresses|
        ensures o.addresses[i] == step(todo[i]).address
      {
        if i < |before.addresses| {
          assert o.addresses[i] == before.addresses[i];
          assert init[i] == todo[i];
        }
      }
    }
  }

  lemma KeysSnoc(t: seq<Entry>, e: Entry)
    ensures Keys(t + [e]) == Keys(t) + {e.key}
  {
    KeysAt(t + [e], e.key);
    assert (t + [e])[|t|] == e;
    forall k
      ensures k in Keys(t + [e]) <==> k in Keys(t) || k == e.key
    {
      KeysAt(t + [e], k);
      KeysAt(t, k);
      if k in Keys(t) {
        var i :| 0 <= i < |t| && t[i].key == k;
        assert (t + [e])[i] == t[i];
      }
      if k in Keys(t + [e]) && k != e.key {
        var i :| 0 <= i < |t + [e]| && (t + [e])[i].key == k;
        assert t[i] == (t + [e])[i];
      }
    }
  }

  /** `save` returns normally exactly when every entry's iteration succeeds. */
  lemma {:induction false} SavedSucceedsIff(todo: seq<Entry>, step: Entry -> Attempt)
    ensures Saved(todo, step).failure.None? <==> forall i :: 0 <= i < |todo| ==> step(todo[i]).outcome.Ok?
    decreases |todo|
  {
    if todo != [] {
      var n := |todo| - 1;
      var init := todo[..n];
      SavedSucceedsIff(init, step);
      var before := Saved(init, step);
      if before.failure.Some? {
        var i :| 0 <= i < n && !step(init[i]).outcome.Ok?;
        assert init[i] == todo[i];
      } else {
        assert forall i :: 0 <= i < n ==> init[i] == todo[i];
      }
    }
  }

  /** The first failing entry decides the exception: the writes and reads of
      the entries before it remain, its own address is read, and nothing is
      written for it or after it. */
  lemma {:induction false} SavedStopsAtFirstFailure(todo: seq<Entry>, i: nat, step: Entry -> Attempt)
    requires i < |todo|
    requires forall j :: 0 <= j < i ==> step(todo[j]).outcome.Ok?
    requires step(todo[i]).outcome.Err?
    ensures var before := Saved(todo[..i], step);
      && before.failure.None?
      && Saved(todo, step) ==
           Saving(before.stored, before.addresses + [step(todo[i]).address], Some(step(todo[i]).outcome.error))
  {
    SavedSucceedsIff(todo[..i], step);
    assert forall j :: 0 <= j < i ==> todo[..i][j] == todo[j];
    assert todo[..i + 1][..i] == todo[..i];
    assert todo[..i + 1][i] == todo[i];
    SavedAfterFailure(todo, i + 1, step);
  }

  /** Every write of `save` proper is of content that has an opening tag and
      ends cleanly. */
  lemma SavedWellFormed(todo: seq<Entry>, isRequired: bool, urlencode: string -> string, read: string -> Option<string>)
    ensures forall k :: k in Saved(todo, SaveStep(isRequired, urlencode, read)).stored ==>
              var v := Saved(todo, SaveStep(isRequired, urlencode, read)).stored[k];
              HasOpeningTag(v) && EndsCleanly(v)
  {
    var step := SaveStep(isRequired, urlencode, read);
    var o := Saved(todo, step);
    SavedWrites(todo, step);
    forall k | k in o.stored
      ensures HasOpeningTag(o.stored[k]) && EndsCleanly(o.stored[k])
    {
      var e :| e in todo && e.key == k && step(e).outcome == Ok(o.stored[k]);
      assert step(e) == Attempted(e, isRequired, urlencode, read);
    }
  }

  /** The keys `load` derives for a batch: `md5` of every original name. */
  function KeySet(md5: string -> string, filenames: seq<string>): set<string> {
    set f | f in filenames :: md5(f)
  }

  /** What the multi-get of a batch returns: the cache restricted to the
      batch's keys. */
  function Hits(cache: map<string, string>, t: seq<Entry>): map<string, string> {
    map k | k in Keys(t) && k in cache :: cache[k]
  }

  /** The resources the multi-get hands back: none when it fails. */
  function Found(cache: map<string, string>, md5: string -> string, filenames: seq<string>, getOk: bool): map<string, string> {
    if getOk then Hits(cache, KeysOf(md5, filenames)) else map[]
  }

  /** The entries `load` passes to `save`: all of them when the multi-get
      fails, otherwise the ones whose key it did not return. */
  function Pending(cache: map<string, string>, md5: string -> string, filenames: seq<string>, getOk: bool): seq<Entry> {
    var t := KeysOf(md5, filenames);
    if getOk then DiffKey(t, Hits(cache, t)) else t
  }

  /** What a call of `load` did: the cache it leaves, the addresses it read,
      and either the resources it hands to `eval` or the exception. */
  datatype Loading = Loading(cache: map<string, string>, fetched: seq<string>, result: Result<map<string, string>, LoadError>)

  /** `load($filenames, $isRequired)` against `cache`, with `getOk` the
      multi-get's success flag and `step` the iteration of `save`. */
  function Loaded(cache: map<string, string>, md5: string -> string, filenames: seq<string>,
                  getOk: bool, step: Entry -> Attempt): Loading
  {
    var o := Saved(Pending(cache, md5, filenames, getOk), step);
    Loading(cache + o.stored, o.addresses,
            if o.failure.Some? then Err(o.failure.value) else Ok(Found(cache, md5, filenames, getOk) + o.stored))
  }

  /** `load` after a failed multi-get: every entry goes to `save`. */
  lemma LoadedGetFails(cache: map<string, string>, md5: string -> string, filenames: seq<string>, step: Entry -> Attempt)
    ensures var o := Saved(KeysOf(md5, filenames), step);
      Loaded(cache, md5, filenames, false, step) ==
        Loading(cache + o.stored, o.addresses, if o.failure.Some? then Err(o.failure.value) else Ok(o.stored))
  {
    MergeNothing(Saved(KeysOf(md5, filenames), step).stored);
  }

  /** `load` after a successful multi-get: the entries it missed go to
      `save`, and what `save` returns is merged into what it found. */
  lemma LoadedGetSucceeds(cache: map<string, string>, md5: string -> string, filenames: seq<string>, step: Entry -> Attempt)
    ensures var t := KeysOf(md5, filenames);
      var o := Saved(DiffKey(t, Hits(cache, t)), step);
      Loaded(cache, md5, filenames, true, step) ==
        Loading(cache + o.stored, o.addresses,
                if o.failure.Some? then Err(o.failure.value) else Ok(Hits(cache, t) + o.stored))
  {
  }

  /** The multi-get returns the cached values of the batch's keys that the
      cache holds, and nothing when it fails. */
  lemma FoundKeys(cache: map<string, string>, md5: string -> string, filenames: seq<string>, getOk: bool)
    ensures var found := Found(cache, md5, filenames, getOk);
      && found.Keys == KeySet(md5, filenames) * (if getOk then cache.Keys else {})
      && forall k :: k in found ==> k in cache && found[k] == cache[k]
  {
  }

  /** The keys `load` hands to `save` are exactly the batch's keys the
      multi-get did not return (all of them when it fails), one entry each. */
  lemma PendingKeys(cache: map<string, string>, md5: string -> string, filenames: seq<string>, getOk: bool)
    ensures var todo := Pending(cache, md5, filenames, getOk);
      && DistinctKeys(todo)
      && Keys(todo) == KeySet(md5, filenames) - (if getOk then cache.Keys else {})
      && |todo| == |Keys(todo)|
  {
    var todo := Pending(cache, md5, filenames, getOk);
    DistinctKeysCount(todo);
  }

  /** `save` visits the pending entries in the order of their first request:
      an entry before another was requested before every request of the
      other. */
  lemma PendingInRequestOrder(cache: map<string, string>, md5: string -> string, filenames: seq<string>,
                              getOk: bool)
    ensures FirstRequestOrder(md5, filenames, Pending(cache, md5, filenames, getOk))
  {
    var t := KeysOf(md5, filenames);
    var todo := Pending(cache, md5, filenames, getOk);
    KeysOfOrder(md5, filenames);
    if getOk {
      forall i, j, q | 0 <= i < j < |todo| && 0 <= q < |filenames| && md5(filenames[q]) == todo[j].key
        ensures exists p :: 0 <= p < q && md5(filenames[p]) == todo[i].key
      {
        SubSeqOrder(todo, t, i, j);
        var a, b :| 0 <= a < b < |t| && t[a] == todo[i] && t[b] == todo[j];
        assert md5(filenames[q]) == t[b].key;
      }
    }
  }

  /** On normal return every derived key is in the cache, the resources map
      has exactly the derived keys, and each resource is what the cache now
      holds under its key. */
  lemma LoadedComplete(cache: map<string, string>, md5: string -> string, filenames: seq<string>,
                       getOk: bool, step: Entry -> Attempt)
    ensures var o := Loaded(cache, md5, filenames, getOk, step);
      o.result.Ok? ==>
        && o.result.value.Keys == KeySet(md5, filenames)
        && KeySet(md5, filenames) <= o.cache.Keys
        && forall k :: k in o.result.value ==> o.cache[k] == o.result.value[k]
  {
    var todo := Pending(cache, md5, filenames, getOk);
    var found := Found(cache, md5, filenames, getOk);
    var saving := Saved(todo, step);
    FoundKeys(cache, md5, filenames, getOk);
    PendingKeys(cache, md5, filenames, getOk);
    SavedWrites(todo, step);
    if saving.failure.None? {
      MergeComplete(cache, found, saving.stored, KeySet(md5, filenames), if getOk then cache.Keys else {});
    }
  }

  lemma MergeComplete(cache: map<string, string>, found: map<string, string>, stored: map<string, string>,
                      requested: set<string>, hit: set<string>)
    requires found.Keys == requested * hit && stored.Keys == requested - hit
    requires forall k :: k in found ==> k in cache && found[k] == cache[k]
    ensures (found + stored).Keys == requested
    ensures requested <= (cache + stored).Keys
    ensures forall k :: k in found + stored ==> (cache + stored)[k] == (found + stored)[k]
  {
  }

  /** `load` never writes a key outside the batch, whether it returns or
      throws. */
  lemma LoadedFrame(cache: map<string, string>, md5: string -> string, filenames: seq<string>,
                    getOk: bool, step: Entry -> Attempt, k: string)
    requires k !in KeySet(md5, filenames)
    ensures var o := Loaded(cache, md5, filenames, getOk, step);
      && (k in o.cache <==> k in cache)
      && (k in cache ==> o.cache[k] == cache[k])
  {
    var todo := Pending(cache, md5, filenames, getOk);
    PendingKeys(cache, md5, filenames, getOk);
    SavedWrites(todo, step);
  }

  /** When the multi-get succeeds, a key it returned is neither fetched nor
      rewritten, and on normal return its resource is the value the cache
      held. */
  lemma LoadedKeepsHits(cache: map<string, string>, md5: string -> string, filenames: seq<string>,
                        step: Entry -> Attempt, k: string)
    requires k in cache && k in KeySet(md5, filenames)
    ensures k !in Keys(Pending(cache, md5, filenames, true))
    ensures var o := Loaded(cache, md5, filenames, true, step);
      && o.cache[k] == cache[k]
      && (o.result.Ok? ==> o.result.value[k] == cache[k])
  {
    var todo := Pending(cache, md5, filenames, true);
    PendingKeys(cache, md5, filenames, true);
    SavedWrites(todo, step);
  }

  /** `load` reads one address per pending key, never more; on normal
      return exactly as many as there are derived keys the multi-get did not
      return (all derived keys when it fails). */
  lemma LoadedReads(cache: map<string, string>, md5: string -> string, filenames: seq<string>,
                    getOk: bool, step: Entry -> Attempt)
    ensures var o := Loaded(cache, md5, filenames, getOk, step);
      var missing := KeySet(md5, filenames) - (if getOk then cache.Keys else {});
      && |o.fetched| <= |missing|
      && (o.result.Ok? ==> |o.fetched| == |missing|)
  {
    var todo := Pending(cache, md5, filenames, getOk);
    PendingKeys(cache, md5, filenames, getOk);
    SavedReads(todo, step);
  }

  /** Every value `load` leaves in the cache is either the one it found or
      content with an opening tag that ends cleanly. */
  lemma LoadedWellFormed(cache: map<string, string>, md5: string -> string, filenames: seq<string>,
                         getOk: bool, isRequired: bool, urlencode: string -> string, read: string -> Option<string>)
    ensures var o := Loaded(cache, md5, filenames, getOk, SaveStep(isRequired, urlencode, read));
      forall k :: k in o.cache ==>
        (k in cache && o.cache[k] == cache[k]) || (HasOpeningTag(o.cache[k]) && EndsCleanly(o.cache[k]))
  {
    var todo := Pending(cache, md5, filenames, getOk);
    var saving := Saved(todo, SaveStep(isRequired, urlencode, read));
    SavedWellFormed(todo, isRequired, urlencode, read);
    MergeWellFormed(cache, saving.stored);
  }

  lemma MergeWellFormed(cache: map<string, string>, stored: map<string, string>)
    requires forall k :: k in stored ==> HasOpeningTag(stored[k]) && EndsCleanly(stored[k])
    ensures forall k :: k in cache + stored ==>
              (k in cache && (cache + stored)[k] == cache[k]) || (HasOpeningTag((cache + stored)[k]) && EndsCleanly((cache + stored)[k]))
  {
  }

  /** With an injective hash, a requested name that `load` must fetch and
      whose read yields nothing usable makes `load` throw, whatever
      `$isRequired` says. */
  lemma LoadedUnreadableThrows(cache: map<string, string>, md5: string -> string, filenames: seq<string>,
                               getOk: bool, isRequired: bool, urlencode: string -> string,
                               read: string -> Option<string>, f: string)
    requires Injective(md5)
    requires f in filenames
    requires getOk ==> md5(f) !in cache
    requires Falsy(read(Address(urlencode, f)))
    ensures Loaded(cache, md5, filenames, getOk, SaveStep(isRequired, urlencode, read)).result.Err?
  {
    var step := SaveStep(isRequired, urlencode, read);
    var t := KeysOf(md5, filenames);
    var todo := Pending(cache, md5, filenames, getOk);
    EveryNameHasEntry(md5, filenames, f);
    var e := Entry(md5(f), f);
    assert e in todo;
    var i :| 0 <= i < |todo| && todo[i] == e;
    UnreadableAlwaysFails(read(Address(urlencode, f)), Address(urlencode, f), isRequired);
    assert step(todo[i]) == Attempted(e, isRequired, urlencode, read);
    SavedSucceedsIff(todo, step);
  }

  /** The cache-complete path: when the multi-get succeeds and the cache
      holds every derived key, `load` reads nothing, writes nothing and hands
      back the cached values. */
  lemma LoadedAllHits(cache: map<string, string>, md5: string -> string, filenames: seq<string>, step: Entry -> Attempt)
    requires KeySet(md5, filenames) <= cache.Keys
    ensures Loaded(cache, md5, filenames, true, step) ==
              Loading(cache, [], Ok(map k | k in KeySet(md5, filenames) :: cache[k]))
  {
    var t := KeysOf(md5, filenames);
    LoadedGetSucceeds(cache, md5, filenames, step);
    AllHitsPending(cache, md5, filenames);
    AllHitsFound(cache, md5, filenames);
    assert Saved([], step) == Saving(map[], [], None);
    MergeNothing(cache);
    MergeNothing(Hits(cache, t));
  }

  /** When the cache holds every key of the batch, the multi-get leaves
      nothing to save. */
  lemma AllHitsPending(cache: map<string, string>, md5: string -> string, filenames: seq<string>)
    requires KeySet(md5, filenames) <= cache.Keys
    ensures var t := KeysOf(md5, filenames); DiffKey(t, Hits(cache, t)) == []
  {
    var t := KeysOf(md5, filenames);
    assert Keys(DiffKey(t, Hits(cache, t))) == {};
    NoKeysIsEmpty(DiffKey(t, Hits(cache, t)));
  }

  /** When the cache holds every key of the batch, the multi-get returns
      the cache's whole restriction to those keys. */
  lemma AllHitsFound(cache: map<string, string>, md5: string -> string, filenames: seq<string>)
    requires KeySet(md5, filenames) <= cache.Keys
    ensures Hits(cache, KeysOf(md5, filenames)) == map k | k in KeySet(md5, filenames) :: cache[k]
  {
    var t := KeysOf(md5, filenames);
    assert Keys(t) == KeySet(md5, filenames);
    SameMap(Hits(cache, t), map k | k in KeySet(md5, filenames) :: cache[k]);
  }

  lemma MergeUpdate(a: map<string, string>, b: map<string, string>, k: string, v: string)
    ensures (a + b)[k := v] == a + b[k := v]
  {
  }

  lemma AppendAssoc(a: seq<string>, b: seq<string>, x: string)
    ensures (a + b) + [x] == a + (b + [x])
  {
  }

  /** A `save` that returns normally hands back one resource per entry,
      which is why `load` never calls `save` twice after a failed multi-get. */
  lemma SavedCount(todo: seq<Entry>, step: Entry -> Attempt)
    requires DistinctKeys(todo)
    requires Saved(todo, step).failure.None?
    ensures |Saved(todo, step).stored| == |todo|
  {
    SavedWrites(todo, step);
    DistinctKeysCount(todo);
    assert |Saved(todo, step).stored| == |Saved(todo, step).stored.Keys|;
  }

  /** When the multi-get returns as many resources as there are keys it
      returned all of them, and nothing is left to save. */
  lemma HitsCount(cache: map<string, string>, t: seq<Entry>)
    requires DistinctKeys(t)
    requires |Hits(cache, t)| == |t|
    ensures DiffKey(t, Hits(cache, t)) == []
  {
    var hits := Hits(cache, t);
    DistinctKeysCount(t);
    assert hits.Keys <= Keys(t);
    assert |hits.Keys| == |hits|;
    assert |Keys(t) - hits.Keys| == |Keys(t)| - |hits.Keys|;
    assert Keys(t) - hits.Keys == {};
    NoKeysIsEmpty(DiffKey(t, hits));
  }

  lemma MergeNothing(m: map<string, string>)
    ensures m + map[] == m && map[] + m == m
  {
  }

  /** Loading a batch again after it loaded normally reads nothing, writes
      nothing and hands back the same resources, provided the multi-get
      succeeds. */
  lemma LoadedAgain(cache: map<string, string>, md5: string -> string, filenames: seq<string>,
                    getOk: bool, step: Entry -> Attempt, step': Entry -> Attempt)
    requires Loaded(cache, md5, filenames, getOk, step).result.Ok?
    ensures var o := Loaded(cache, md5, filenames, getOk, step);
      Loaded(o.cache, md5, filenames, true, step') == Loading(o.cache, [], o.result)
  {
    var o := Loaded(cache, md5, filenames, getOk, step);
    LoadedComplete(cache, md5, filenames, getOk, step);
    LoadedAllHits(o.cache, md5, filenames, step');
    SameMap(map k | k in KeySet(md5, filenames) :: o.cache[k], o.result.value);
  }

  lemma NoKeysIsEmpty(t: seq<Entry>)
    requires Keys(t) <= {}
    ensures t == []
  {
  }

  lemma SameMap(a: map<string, string>, b: map<string, string>)
    requires a.Keys == b.Keys
    requires forall k :: k in a ==> a[k] == b[k]
    ensures a == b
  {
  }

  /** When an iteration of `save` throws, `load` throws that exception: the
      cache keeps the writes made for the pending entries before it and gets
      none for the failing key, and the failing entry's address was the last
      one read. */
  lemma LoadedStopsAtFirstFailure(cache: map<string, string>, md5: string -> string, filenames: seq<string>,
                                  getOk: bool, step: Entry -> Attempt, i: nat)
    requires i < |Pending(cache, md5, filenames, getOk)|
    requires forall j :: 0 <= j < i ==> step(Pending(cache, md5, filenames, getOk)[j]).outcome.Ok?
    requires step(Pending(cache, md5, filenames, getOk)[i]).outcome.Err?
    ensures var todo := Pending(cache, md5, filenames, getOk);
      var before := Saved(todo[..i], step);
      var o := Loaded(cache, md5, filenames, getOk, step);
      && o.result == Err(step(todo[i]).outcome.error)
      && o.cache == cache + before.stored
      && todo[i].key !in before.stored
      && o.fetched == before.addresses + [step(todo[i]).address]
  {
    var todo := Pending(cache, md5, filenames, getOk);
    PendingKeys(cache, md5, filenames, getOk);
    SavedStopsAtFirstFailure(todo, i, step);
    SavedWrites(todo[..i], step);
    DistinctBefore(todo, i);
  }

  /** The argument of `flush`: a name or a list of arguments, nested to any
      depth. */
  datatype FileArg = Path(name: string) | Paths(items: seq<FileArg>)

  /** The keys `flush` deletes: `md5` of every name in the argument. */
  function FlushKeys(md5: string -> string, arg: FileArg): set<string>
    decreases arg
  {
    match arg
    case Path(name) => {md5(name)}
    case Paths(items) => set i, k | 0 <= i < |items| && k in FlushKeys(md5, items[i]) :: k
  }

  /** Flushing one more item deletes its keys as well. */
  lemma FlushKeysSnoc(md5: string -> string, items: seq<FileArg>, i: nat)
    requires i < |items|
    ensures FlushKeys(md5, Paths(items[..i + 1])) == FlushKeys(md5, Paths(items[..i])) + FlushKeys(md5, items[i])
  {
    var before := items[..i];
    var after := items[..i + 1];
    forall k | k in FlushKeys(md5, Paths(after))
      ensures k in FlushKeys(md5, Paths(before)) + FlushKeys(md5, items[i])
    {
      var j :| 0 <= j < |after| && k in FlushKeys(md5, after[j]);
      if j < i {
        assert after[j] == before[j];
      }
    }
    forall k | k in FlushKeys(md5, Paths(before))
      ensures k in FlushKeys(md5, Paths(after))
    {
      var j :| 0 <= j < |before| && k in FlushKeys(md5, before[j]);
      assert before[j] == after[j];
    }
    assert after[i] == items[i];
  }

  /** Deleting two key sets one after the other deletes their union. */
  lemma DeleteTwice(m: map<string, string>, a: set<string>, b: set<string>)
    ensures m - a - b == m - (a + b)
  {
  }

  /** Flushing a flat list of names deletes exactly the keys `load` derives
      for that batch. */
  lemma FlushKeysOfBatch(md5: string -> string, filenames: seq<string>)
    ensures FlushKeys(md5, Paths(seq(|filenames|, i requires 0 <= i < |filenames| => Path(filenames[i]))))
            == KeySet(md5, filenames)
  {
    var items := seq(|filenames|, i requires 0 <= i < |filenames| => Path(filenames[i]));
    forall k | k in KeySet(md5, filenames)
      ensures k in FlushKeys(md5, Paths(items))
    {
      var f :| f in filenames && md5(f) == k;
      var i :| 0 <= i < |filenames| && filenames[i] == f;
      assert k in FlushKeys(md5, items[i]);
    }
  }

  /** Loading a batch and then flushing its names leaves the cache exactly as
      flushing alone would: `load` touches no other key. */
  lemma FlushUndoesLoad(cache: map<string, string>, md5: string -> string, filenames: seq<string>,
                        getOk: bool, step: Entry -> Attempt)
    ensures Loaded(cache, md5, filenames, getOk, step).cache - KeySet(md5, filenames) == cache - KeySet(md5, filenames)
  {
    var o := Loaded(cache, md5, filenames, getOk, step);
    var ks := KeySet(md5, filenames);
    forall k | k !in ks
      ensures (k in o.cache <==> k in cache) && (k in cache ==> o.cache[k] == cache[k])
    {
      LoadedFrame(cache, md5, filenames, getOk, step, k);
    }
    SameOutside(o.cache, cache, ks);
  }

  lemma SameOutside(a: map<string, string>, b: map<string, string>, ks: set<string>)
    requires forall k :: k !in ks ==> (k in a <==> k in b) && (k in b ==> a[k] == b[k])
    ensures a - ks == b - ks
  {
  }

  /** `once($filename)`: nothing when the cache already holds the name's key,
      otherwise `load($filename)`. */
  function Onced(cache: map<string, string>, md5: string -> string, filename: string,
                 getOk: bool, step: Entry -> Attempt): Loading
  {
    if md5(filename) in cache then Loading(cache, [], Ok(map[]))
    else Loaded(cache, md5, [filename], getOk, step)
  }

  /** After a batch loaded normally, `once` of any of its names reads
      nothing and writes nothing. */
  lemma OnceAfterLoad(cache: map<string, string>, md5: string -> string, filenames: seq<string>,
                      getOk: bool, step: Entry -> Attempt, f: string, getOk': bool, step': Entry -> Attempt)
    requires Loaded(cache, md5, filenames, getOk, step).result.Ok?
    requires f in filenames
    ensures var c := Loaded(cache, md5, filenames, getOk, step).cache;
      Onced(c, md5, f, getOk', step') == Loading(c, [], Ok(map[]))
  {
    LoadedComplete(cache, md5, filenames, getOk, step);
    assert md5(f) in KeySet(md5, filenames);
  }

  /** After its name is flushed, `once` loads the file again. */
  lemma OnceAfterFlush(cache: map<string, string>, md5: string -> string, f: string,
                       getOk: bool, step: Entry -> Attempt)
    ensures var c := cache - FlushKeys(md5, Path(f));
      Onced(c, md5, f, getOk, step) == Loaded(c, md5, [f], getOk, step)
  {
  }
}

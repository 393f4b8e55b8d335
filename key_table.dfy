/** The `$keys` array that `File::load` builds: a PHP ordered array from
    `md5($filename)` to `$filename`, kept here as a sequence of entries in
    insertion order. The hash is a parameter; nothing is assumed of it unless
    a lemma says so. */
module KeyTable {

  /** One element `md5($filename) => $filename` of the array. */
  datatype Entry = Entry(key: string, filename: string)

  /** `array_keys($t)` as a set. */
  function Keys(t: seq<Entry>): set<string> {
    if t == [] then {} else {t[0].key} + Keys(t[1..])
  }

  /** No key appears twice, as in any PHP array. */
  predicate DistinctKeys(t: seq<Entry>) {
    t == [] || (t[0].key !in Keys(t[1..]) && DistinctKeys(t[1..]))
  }

  /** A key is in the array exactly when some entry carries it. */
  lemma {:induction false} KeysAt(t: seq<Entry>, k: string)
    ensures k in Keys(t) <==> exists i :: 0 <= i < |t| && t[i].key == k
  {
    if t != [] {
      KeysAt(t[1..], k);
      if k in Keys(t[1..]) {
        var i :| 0 <= i < |t[1..]| && t[1..][i].key == k;
        assert t[i + 1].key == k;
      }
    }
  }

  /** In an array with distinct keys no later entry repeats the first key. */
  lemma DistinctHead(t: seq<Entry>)
    requires t != []
    ensures DistinctKeys(t) ==> forall i :: 0 < i < |t| ==> t[i].key != t[0].key
  {
    if DistinctKeys(t) {
      KeysAt(t[1..], t[0].key);
      forall i | 0 < i < |t|
        ensures t[i].key != t[0].key
      {
        assert t[1..][i - 1] == t[i];
      }
    }
  }

  /** In an array with distinct keys, an entry's key is not among the keys
      before it. */
  lemma {:induction false} DistinctBefore(t: seq<Entry>, i: nat)
    requires DistinctKeys(t) && i < |t|
    ensures t[i].key !in Keys(t[..i])
  {
    if i > 0 {
      DistinctHead(t);
      DistinctBefore(t[1..], i - 1);
      assert t[..i] == [t[0]] + t[1..][..i - 1];
      assert t[1..][i - 1] == t[i];
    }
  }

  /** A hash function that maps different strings to different keys. */
  ghost predicate Injective(md5: string -> string) {
    forall a, b :: md5(a) == md5(b) ==> a == b
  }

  /** `$t[$k] = $f`: a new key is appended at the end, an existing key keeps
      its position and gets the new value. */
  function Assign(t: seq<Entry>, k: string, f: string): (r: seq<Entry>)
    ensures Keys(r) == Keys(t) + {k}
    ensures k !in Keys(t) ==> r == t + [Entry(k, f)]
    ensures k in Keys(t) && DistinctKeys(t) ==>
              && |r| == |t|
              && forall i :: 0 <= i < |t| ==> r[i] == (if t[i].key == k then Entry(k, f) else t[i])
    ensures DistinctKeys(t) ==> DistinctKeys(r)
  {
    if t == [] then [Entry(k, f)]
    else if t[0].key == k then
      DistinctHead(t);
      [Entry(k, f)] + t[1..]
    else [t[0]] + Assign(t[1..], k, f)
  }

  /** The loop `foreach ($filenames as $filename) $keys[md5($filename)] = $filename;`
      run over the first |filenames| names. One entry per distinct key, every
      key is the hash of a requested name, and every entry's name hashes to
      its key. */
  function KeysOf(md5: string -> string, filenames: seq<string>): (t: seq<Entry>)
    ensures DistinctKeys(t)
    ensures Keys(t) == set f | f in filenames :: md5(f)
    ensures forall i :: 0 <= i < |t| ==> t[i].filename in filenames && md5(t[i].filename) == t[i].key
    decreases |filenames|
  {
    if filenames == [] then []
    else
      var f := filenames[|filenames| - 1];
      Assign(KeysOf(md5, filenames[..|filenames| - 1]), md5(f), f)
  }

  /** `r` is `t` with some entries dropped, the rest in their order. */
  predicate SubSeq(r: seq<Entry>, t: seq<Entry>)
    decreases |t|
  {
    if r == [] then true
    else if t == [] then false
    else (r[0] == t[0] && SubSeq(r[1..], t[1..])) || SubSeq(r, t[1..])
  }

  /** Each entry of a subsequence sits at an index no smaller in the whole. */
  lemma {:induction false} SubSeqIndex(r: seq<Entry>, t: seq<Entry>, j: nat)
    requires SubSeq(r, t) && j < |r|
    ensures exists j' :: j <= j' < |t| && t[j'] == r[j]
    decreases |t|
  {
    if r[0] == t[0] && SubSeq(r[1..], t[1..]) {
      if j > 0 {
        SubSeqIndex(r[1..], t[1..], j - 1);
        var k :| j - 1 <= k < |t[1..]| && t[1..][k] == r[1..][j - 1];
        assert t[k + 1] == r[j];
      } else {
        assert t[0] == r[0];
      }
    } else {
      SubSeqIndex(r, t[1..], j);
      var k :| j <= k < |t[1..]| && t[1..][k] == r[j];
      assert t[k + 1] == r[j];
    }
  }

  /** A subsequence keeps the order of the entries it keeps: an entry before
      another in `r` is before it in `t`. */
  lemma {:induction false} SubSeqOrder(r: seq<Entry>, t: seq<Entry>, i: nat, j: nat)
    requires SubSeq(r, t) && i < j < |r|
    ensures exists i', j' :: 0 <= i' < j' < |t| && t[i'] == r[i] && t[j'] == r[j]
    decreases |t|
  {
    if r[0] == t[0] && SubSeq(r[1..], t[1..]) {
      if i == 0 {
        SubSeqIndex(r[1..], t[1..], j - 1);
        var k :| j - 1 <= k < |t[1..]| && t[1..][k] == r[1..][j - 1];
        assert t[0] == r[0] && t[k + 1] == r[j];
      } else {
        SubSeqOrder(r[1..], t[1..], i - 1, j - 1);
        var a, b :| 0 <= a < b < |t[1..]| && t[1..][a] == r[1..][i - 1] && t[1..][b] == r[1..][j - 1];
        assert t[a + 1] == r[i] && t[b + 1] == r[j];
      }
    } else {
      SubSeqOrder(r, t[1..], i, j);
      var a, b :| 0 <= a < b < |t[1..]| && t[1..][a] == r[i] && t[1..][b] == r[j];
      assert t[a + 1] == r[i] && t[b + 1] == r[j];
    }
  }

  /** `array_diff_key($t, $m)`: the entries whose key `$m` lacks, in order. */
  function DiffKey<V>(t: seq<Entry>, m: map<string, V>): (r: seq<Entry>)
    ensures forall e :: e in r <==> e in t && e.key !in m
    ensures Keys(r) == Keys(t) - m.Keys
    ensures DistinctKeys(t) ==> DistinctKeys(r)
    ensures SubSeq(r, t)
  {
    if t == [] then []
    else if t[0].key in m then DiffKey(t[1..], m)
    else [t[0]] + DiffKey(t[1..], m)
  }

  /** A PHP array with distinct keys counts as many elements as it has keys. */
  lemma {:induction false} DistinctKeysCount(t: seq<Entry>)
    requires DistinctKeys(t)
    ensures |Keys(t)| == |t|
  {
    if t != [] {
      DistinctKeysCount(t[1..]);
      assert Keys(t) == {t[0].key} + Keys(t[1..]);
      assert t[0].key !in Keys(t[1..]);
    }
  }

  /** With an injective hash, requesting a name that is already in the batch
      adds nothing: duplicate filenames collapse to one entry. */
  lemma {:induction false} DuplicateCollapses(md5: string -> string, filenames: seq<string>, f: string)
    requires Injective(md5)
    requires f in filenames
    ensures KeysOf(md5, filenames + [f]) == KeysOf(md5, filenames)
  {
    var t := KeysOf(md5, filenames);
    assert (filenames + [f])[..|filenames|] == filenames;
    assert md5(f) in Keys(t);
    var r := KeysOf(md5, filenames + [f]);
    assert |r| == |t|;
    forall i | 0 <= i < |t|
      ensures r[i] == t[i]
    {
      if t[i].key == md5(f) {
        assert md5(t[i].filename) == md5(f);
      }
    }
  }

  /** With an injective hash every requested name has its own entry, under
      its own hash. */
  lemma {:induction false} EveryNameHasEntry(md5: string -> string, filenames: seq<string>, f: string)
    requires Injective(md5)
    requires f in filenames
    ensures Entry(md5(f), f) in KeysOf(md5, filenames)
  {
    var t := KeysOf(md5, filenames);
    assert md5(f) in Keys(t);
    KeysAt(t, md5(f));
    var i :| 0 <= i < |t| && t[i].key == md5(f);
    assert md5(t[i].filename) == md5(f);
    assert t[i] == Entry(md5(f), f);
  }

  /** One more name keeps the keys already derived in place, and adds its
      own key at the end only when it is new. */
  lemma KeysOfSnoc(md5: string -> string, filenames: seq<string>)
    requires filenames != []
    ensures var n := |filenames| - 1;
      var before := KeysOf(md5, filenames[..n]);
      var t := KeysOf(md5, filenames);
      && |before| <= |t| <= |before| + 1
      && (forall x :: 0 <= x < |before| ==> t[x].key == before[x].key)
      && (|t| > |before| ==> t[|before|].key !in Keys(before) && t[|before|].key == md5(filenames[n]))
  {
    var n := |filenames| - 1;
    var before := KeysOf(md5, filenames[..n]);
    if md5(filenames[n]) !in Keys(before) {
      assert KeysOf(md5, filenames) == before + [Entry(md5(filenames[n]), filenames[n])];
    }
  }

  /** The table `t` lists keys in the order of their first request in
      `filenames`: an entry before another was requested before every
      request of the other. */
  ghost predicate FirstRequestOrder(md5: string -> string, filenames: seq<string>, t: seq<Entry>) {
    forall i, j, q :: 0 <= i < j < |t| && 0 <= q < |filenames| && md5(filenames[q]) == t[j].key ==>
      exists p :: 0 <= p < q && md5(filenames[p]) == t[i].key
  }

  /** `KeysOf` lists keys in the order of their first request. */
  lemma {:induction false} KeysOfOrder(md5: string -> string, filenames: seq<string>)
    ensures FirstRequestOrder(md5, filenames, KeysOf(md5, filenames))
    decreases |filenames|
  {
    if filenames != [] {
      var n := |filenames| - 1;
      var init := filenames[..n];
      KeysOfOrder(md5, init);
      KeysOfSnoc(md5, filenames);
      RequestedHaveKeys(md5, init);
      OrderStep(md5, filenames, init, KeysOf(md5, init), KeysOf(md5, filenames));
    }
  }

  /** Every requested name's hash is a key of the derived table, and every
      entry's name was requested. */
  lemma RequestedHaveKeys(md5: string -> string, filenames: seq<string>)
    ensures forall q :: 0 <= q < |filenames| ==> md5(filenames[q]) in Keys(KeysOf(md5, filenames))
  {
    forall q | 0 <= q < |filenames|
      ensures md5(filenames[q]) in Keys(KeysOf(md5, filenames))
    {
      assert filenames[q] in filenames;
    }
  }

  /** Adding one name to the request keeps the first-request order, given
      what adding it does to the table. */
  lemma OrderStep(md5: string -> string, fs: seq<string>, init: seq<string>, before: seq<Entry>, t: seq<Entry>)
    requires |init| < |fs| && forall x :: 0 <= x < |init| ==> fs[x] == init[x]
    requires FirstRequestOrder(md5, init, before)
    requires |before| <= |t| <= |before| + 1
    requires forall x :: 0 <= x < |before| ==> t[x].key == before[x].key
    requires |t| > |before| ==> t[|before|].key !in Keys(before)
    requires forall x :: 0 <= x < |before| ==> before[x].filename in init && md5(before[x].filename) == before[x].key
    requires forall q :: 0 <= q < |init| ==> md5(init[q]) in Keys(before)
    ensures FirstRequestOrder(md5, fs, t)
  {
    forall i, j, q | 0 <= i < j < |t| && 0 <= q < |fs| && md5(fs[q]) == t[j].key
      ensures exists p :: 0 <= p < q && md5(fs[p]) == t[i].key
    {
      if q < |init| {
        assert fs[q] == init[q];
        var p := OrderEarly(md5, init, before, t, i, j, q);
        assert fs[p] == init[p];
      } else {
        var p := OrderLate(md5, init, before, t, i);
        assert fs[p] == init[p];
      }
    }
  }

  /** A name already requested: its entry was already in the table, at the
      same place, so the earlier entry was requested before it. */
  lemma OrderEarly(md5: string -> string, init: seq<string>, before: seq<Entry>, t: seq<Entry>, i: nat, j: nat, q: nat)
      returns (p: nat)
    requires FirstRequestOrder(md5, init, before)
    requires |before| <= |t| <= |before| + 1 && i < j < |t|
    requires forall x :: 0 <= x < |before| ==> t[x].key == before[x].key
    requires |t| > |before| ==> t[|before|].key !in Keys(before)
    requires q < |init| && md5(init[q]) in Keys(before) && md5(init[q]) == t[j].key
    ensures p < q && md5(init[p]) == t[i].key
  {
    assert j != |before|;
    assert md5(init[q]) == before[j].key;
    p :| 0 <= p < q && md5(init[p]) == before[i].key;
  }

  /** The new name: every entry before it came from a name requested
      earlier. */
  lemma OrderLate(md5: string -> string, init: seq<string>, before: seq<Entry>, t: seq<Entry>, i: nat)
      returns (p: nat)
    requires |before| <= |t| && i < |before|
    requires forall x :: 0 <= x < |before| ==> t[x].key == before[x].key
    requires forall x :: 0 <= x < |before| ==> before[x].filename in init && md5(before[x].filename) == before[x].key
    ensures p < |init| && md5(init[p]) == t[i].key
  {
    assert before[i].filename in init;
    p :| 0 <= p < |init| && init[p] == before[i].filename;
  }
}

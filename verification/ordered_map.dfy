/**
 An insertion-ordered dictionary, the behaviour of a Python `dict` that the
 live-query engine relies on: overwriting an existing key keeps its position,
 deleting a key drops it, and a new key goes at the end. The order is kept in
 `keys`, the contents in `vals`.
 */
module OrderedMap {

  /** Keys are the string row identifiers (`__rowid__`) of the engine. */
  type Key = string

  datatype OMap<V> = OMap(keys: seq<Key>, vals: map<Key, V>)

  /** Every key is listed exactly once, and the listed keys are the map's keys. */
  ghost predicate Valid<V>(m: OMap<V>) {
    && Distinct(m.keys)
    && (forall k :: k in m.vals <==> k in m.keys)
  }

  ghost predicate Distinct(s: seq<Key>) {
    forall i, j :: 0 <= i < j < |s| ==> s[i] != s[j]
  }

  function Empty<V>(): (r: OMap<V>)
    ensures Valid(r)
    ensures |r.keys| == 0 && r.vals == map[]
  {
    OMap([], map[])
  }

  /** `d[k] = v`: an existing key keeps its place, a new key is appended. */
  function Put<V>(m: OMap<V>, k: Key, v: V): (r: OMap<V>)
    requires Valid(m)
    ensures Valid(r)
    ensures r.vals == m.vals[k := v]
    ensures k in m.vals ==> r.keys == m.keys
    ensures k !in m.vals ==> r.keys == m.keys + [k]
  {
    if k in m.vals then OMap(m.keys, m.vals[k := v])
    else OMap(m.keys + [k], m.vals[k := v])
  }

  /** The sequence `s` with every occurrence of `k` dropped, order otherwise kept. */
  function Drop(s: seq<Key>, k: Key): (r: seq<Key>)
    ensures forall x :: x in r <==> x in s && x != k
    ensures |r| <= |s|
    ensures k !in s ==> r == s
  {
    if |s| == 0 then []
    else if s[0] == k then Drop(s[1..], k)
    else [s[0]] + Drop(s[1..], k)
  }

  lemma DistinctTail(s: seq<Key>)
    requires Distinct(s)
    requires |s| > 0
    ensures Distinct(s[1..])
    ensures s[0] !in s[1..]
  {
    forall j | 0 <= j < |s[1..]| ensures s[1..][j] != s[0] {
      assert s[1..][j] == s[j + 1];
    }
  }

  lemma DistinctTailWhen(s: seq<Key>)
    requires |s| > 0
    ensures Distinct(s) ==> Distinct(s[1..]) && s[0] !in s[1..]
  {
    if Distinct(s) {
      DistinctTail(s);
    }
  }

  /** On a list of distinct keys, dropping the key at index `i` splices it out. */
  lemma {:induction false} DropSplices(s: seq<Key>, i: nat)
    requires Distinct(s)
    requires i < |s|
    ensures Drop(s, s[i]) == s[..i] + s[i + 1..]
    decreases i
  {
    DistinctTail(s);
    if i == 0 {
      assert Drop(s, s[0]) == Drop(s[1..], s[0]) == s[1..];
    } else {
      var t := s[1..];
      DropSplices(t, i - 1);
      assert t[i - 1] == s[i];
      calc {
        Drop(s, s[i]);
        [s[0]] + Drop(t, s[i]);
        [s[0]] + (t[..i - 1] + t[i..]);
        { assert [s[0]] + t[..i - 1] == s[..i]; assert t[i..] == s[i + 1..]; }
        s[..i] + s[i + 1..];
      }
    }
  }

  lemma DropDistinct(s: seq<Key>, k: Key)
    requires Distinct(s)
    ensures Distinct(Drop(s, k))
    ensures k in s ==> |Drop(s, k)| == |s| - 1
  {
    if k in s {
      var i :| 0 <= i < |s| && s[i] == k;
      DropSplices(s, i);
    }
  }

  /** `del d[k]` (a no-op when `k` is absent). */
  function Remove<V>(m: OMap<V>, k: Key): (r: OMap<V>)
    requires Valid(m)
    ensures Valid(r)
    ensures r.vals == m.vals - {k}
    ensures r.keys == Drop(m.keys, k)
    ensures k in m.vals ==> |r.keys| == |m.keys| - 1
  {
    DropDistinct(m.keys, k);
    OMap(Drop(m.keys, k), m.vals - {k})
  }

  /** In a list of distinct keys, the keys after position `n` are exactly those not before it. */
  lemma SuffixKeys(s: seq<Key>, n: nat)
    requires Distinct(s)
    requires n <= |s|
    ensures forall k :: k in s[n..] <==> k in s && k !in s[..n]
  {
    forall k ensures k in s[n..] <==> k in s && k !in s[..n] {
      if k in s[n..] {
        var j :| 0 <= j < |s[n..]| && s[n..][j] == k;
        forall i | 0 <= i < n ensures s[..n][i] != k {
          assert s[..n][i] == s[i] && s[n + j] == k;
        }
      }
      if k in s && k !in s[..n] {
        var j :| 0 <= j < |s| && s[j] == k;
        if j >= n {
          assert s[n..][j - n] == k;
        }
      }
    }
  }

  /**
   The keys of `ks` that are not in `seen`, in order and each once: what
   putting the keys `ks` one after another appends to an order `seen`.
   */
  function NewKeys(seen: seq<Key>, ks: seq<Key>): (r: seq<Key>)
    ensures forall k :: k in r <==> k in ks && k !in seen
    decreases |ks|
  {
    if |ks| == 0 then []
    else
      assert forall k :: k in ks <==> k == ks[0] || k in ks[1..];
      if ks[0] in seen then NewKeys(seen, ks[1..])
      else [ks[0]] + NewKeys(seen + [ks[0]], ks[1..])
  }

  /** Appending the new keys of `ks` is appending the first one (when new), then the rest's. */
  lemma NewKeysCons(seen: seq<Key>, ks: seq<Key>)
    requires |ks| > 0
    ensures var seen' := if ks[0] in seen then seen else seen + [ks[0]];
      seen + NewKeys(seen, ks) == seen' + NewKeys(seen', ks[1..])
  {
    if ks[0] !in seen {
      assert seen + ([ks[0]] + NewKeys(seen + [ks[0]], ks[1..])) == (seen + [ks[0]]) + NewKeys(seen + [ks[0]], ks[1..]);
    }
  }

  /** A prefix of a prefix is a prefix. */
  lemma PrefixOfPrefix(a: seq<Key>, b: seq<Key>, c: seq<Key>)
    requires |c| <= |b| <= |a|
    requires a[..|b|] == b && b[..|c|] == c
    ensures a[..|c|] == c
  {
    assert a[..|c|] == a[..|b|][..|c|];
  }
}

/**
 * The `tags` dictionary of the geometry walk: depth -> name-tag string.
 * A Python dict keeps its keys in insertion order, and `tags.values()`
 * follows that order, so the dictionary is modelled as a sequence of
 * entries: assigning an existing key replaces its value in place, a new key
 * goes at the end, and deleting a key removes its entry.
 */
module TagDicts {
  import opened Options

  datatype Tag = Tag(depth: int, name: string)

  type TagDict = seq<Tag>

  /** No key appears twice (every dict has this). */
  predicate UniqueKeys(t: TagDict)
  {
    forall i, j :: 0 <= i < j < |t| ==> t[i].depth != t[j].depth
  }

  /** Keys in strictly ascending order: insertion order and depth order agree. */
  predicate Ascending(t: TagDict)
  {
    forall i, j :: 0 <= i < j < |t| ==> t[i].depth < t[j].depth
  }

  /** Every key is at most d. */
  predicate KeysAtMost(t: TagDict, d: int)
  {
    forall i :: 0 <= i < |t| ==> t[i].depth <= d
  }

  /** tags.get(k) */
  function Get(t: TagDict, k: int): (r: Option<string>)
    ensures r.None? <==> forall i :: 0 <= i < |t| ==> t[i].depth != k
    decreases |t|
  {
    if t == [] then None
    else if t[0].depth == k then Some(t[0].name)
    else
      var r := Get(t[1..], k);
      assert forall i :: 0 < i < |t| ==> t[i] == t[1..][i - 1];
      r
  }

  /** tags[k] = v */
  function SetTag(t: TagDict, k: int, v: string): TagDict
    decreases |t|
  {
    if t == [] then [Tag(k, v)]
    else if t[0].depth == k then [Tag(k, v)] + t[1..]
    else [t[0]] + SetTag(t[1..], k, v)
  }

  /**
   * Assignment as a dict has it: k maps to v afterwards, every other key
   * keeps its value, a new key is appended, an existing key keeps its place.
   */
  lemma {:induction false} SetTagLaws(t: TagDict, k: int, v: string)
    ensures Get(SetTag(t, k, v), k) == Some(v)
    ensures forall k' :: k' != k ==> Get(SetTag(t, k, v), k') == Get(t, k')
    ensures Get(t, k).None? ==> SetTag(t, k, v) == t + [Tag(k, v)]
    ensures Get(t, k).Some? ==>
              |SetTag(t, k, v)| == |t| && forall i :: 0 <= i < |t| ==> SetTag(t, k, v)[i].depth == t[i].depth
    decreases |t|
  {
    if t != [] && t[0].depth != k {
      SetTagLaws(t[1..], k, v);
      assert Get(t, k) == Get(t[1..], k);
      var r := SetTag(t, k, v);
      assert r == [t[0]] + SetTag(t[1..], k, v);
      forall k' | k' != k
        ensures Get(r, k') == Get(t, k')
      {
        if t[0].depth != k' {
          assert r[1..] == SetTag(t[1..], k, v);
        }
      }
      if Get(t, k).None? {
        assert [t[0]] + (t[1..] + [Tag(k, v)]) == t + [Tag(k, v)];
      }
    } else if t != [] {
      var r := SetTag(t, k, v);
      assert r[1..] == t[1..];
    }
  }

  /** del tags[k]: removes the entry of key k; a dictionary without that key is left as it is. */
  function DelTag(t: TagDict, k: int): TagDict
    decreases |t|
  {
    if t == [] then []
    else if t[0].depth == k then t[1..]
    else [t[0]] + DelTag(t[1..], k)
  }

  /** Deletion leaves every other key with its value. */
  lemma {:induction false} DelTagKeepsOthers(t: TagDict, k: int)
    ensures forall k' :: k' != k ==> Get(DelTag(t, k), k') == Get(t, k')
    decreases |t|
  {
    if t != [] && t[0].depth != k {
      DelTagKeepsOthers(t[1..], k);
      var r := DelTag(t, k);
      assert r[0] == t[0] && r[1..] == DelTag(t[1..], k);
      forall k' | k' != k
        ensures Get(r, k') == Get(t, k')
      {
        if t[0].depth != k' {
          assert Get(r, k') == Get(r[1..], k');
        }
      }
    }
  }

  /** Deleting an absent key changes nothing. */
  lemma {:induction false} DelTagAbsent(t: TagDict, k: int)
    requires Get(t, k).None?
    ensures DelTag(t, k) == t
    decreases |t|
  {
    if t != [] {
      assert t[0].depth != k && Get(t[1..], k).None?;
      DelTagAbsent(t[1..], k);
      assert DelTag(t, k) == [t[0]] + t[1..] == t;
    }
  }

  /** With unique keys, the deleted key is gone and the keys stay unique. */
  lemma {:induction false} DelTagRemoves(t: TagDict, k: int)
    requires UniqueKeys(t)
    ensures Get(DelTag(t, k), k).None? && UniqueKeys(DelTag(t, k))
    decreases |t|
  {
    if t != [] && t[0].depth != k {
      assert UniqueKeys(t[1..]);
      DelTagRemoves(t[1..], k);
      DelTagKeepsOthers(t[1..], k);
      var rest := DelTag(t[1..], k);
      DelTagKeepsUniqueKeys(t, rest);
      assert DelTag(t, k) == [t[0]] + rest;
      assert Get(DelTag(t, k), k) == Get(rest, k);
    } else if t != [] {
      assert Get(t[1..], k).None?;
    }
  }

  /** The step of DelTagRemoves that keeps keys unique when the first entry stays. */
  lemma DelTagKeepsUniqueKeys(t: TagDict, rest: TagDict)
    requires t != [] && UniqueKeys(t)
    requires UniqueKeys(t[1..]) ==> UniqueKeys(rest)
    requires forall k' :: k' == t[0].depth ==> Get(rest, k') == Get(t[1..], k')
    ensures UniqueKeys([t[0]] + rest)
  {
    assert UniqueKeys(t[1..]);
    assert Get(t[1..], t[0].depth).None?;
    assert Get(rest, t[0].depth).None?;
    var r := [t[0]] + rest;
    forall i, j | 0 <= i < j < |r|
      ensures r[i].depth != r[j].depth
    {
      if i == 0 {
        assert r[j] == rest[j - 1];
      } else {
        assert r[i] == rest[i - 1] && r[j] == rest[j - 1];
      }
    }
  }

  /** tags.values(), in insertion order. */
  function Values(t: TagDict): (r: seq<string>)
    ensures |r| == |t| && forall i :: 0 <= i < |t| ==> r[i] == t[i].name
    decreases |t|
  {
    if t == [] then [] else [t[0].name] + Values(t[1..])
  }

  /** Assignment never creates a second entry for a key. */
  lemma SetTagKeepsUniqueKeys(t: TagDict, k: int, v: string)
    requires UniqueKeys(t)
    ensures UniqueKeys(SetTag(t, k, v))
  {
    var r := SetTag(t, k, v);
    SetTagLaws(t, k, v);
    if Get(t, k).None? {
      assert r == t + [Tag(k, v)];
    } else {
      assert forall i :: 0 <= i < |t| ==> r[i].depth == t[i].depth;
    }
  }

  lemma AscendingHasUniqueKeys(t: TagDict)
    requires Ascending(t)
    ensures UniqueKeys(t)
  {
  }

  /** Assigning the key of a last entry whose key is not earlier replaces that entry. */
  lemma {:induction false} SetTagAfter(b: TagDict, last: Tag, d: int, v: string)
    requires last.depth == d && Get(b, d).None?
    ensures SetTag(b + [last], d, v) == b + [Tag(d, v)]
    decreases |b|
  {
    var u := b + [last];
    if b == [] {
      assert u == [last];
    } else {
      assert u[0] == b[0] && b[0].depth != d;
      assert u[1..] == b[1..] + [last];
      assert Get(b[1..], d) == Get(b, d);
      SetTagAfter(b[1..], last, d, v);
      assert SetTag(u, d, v) == [b[0]] + (b[1..] + [Tag(d, v)]);
      assert [b[0]] + (b[1..] + [Tag(d, v)]) == b + [Tag(d, v)];
    }
  }

  /** Deleting the key of a last entry whose key is not earlier drops that entry. */
  lemma {:induction false} DelTagAfter(b: TagDict, last: Tag)
    requires UniqueKeys(b + [last]) && Get(b, last.depth).None?
    ensures DelTag(b + [last], last.depth) == b
    decreases |b|
  {
    if b == [] {
    } else {
      assert (b + [last])[1..] == b[1..] + [last];
      var u := b + [last];
      assert b[0].depth != last.depth;
      assert forall i, j :: 0 <= i < j < |u| - 1 ==> u[1..][i].depth == u[i + 1].depth != u[j + 1].depth == u[1..][j].depth;
      assert UniqueKeys(u[1..]);
      assert Get(b[1..], last.depth).None?;
      DelTagAfter(b[1..], last);
    }
  }
}

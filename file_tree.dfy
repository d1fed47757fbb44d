/**
  The `fileTree` of the ingestion loop: a JavaScript `Map` from relative
  path to file record, which remembers the order in which keys were first
  set. It is held as a sequence of key/record pairs.
*/
module FileTree {

  datatype Option<T> = None | Some(value: T)

  /** The record the loop stores; `size` is the file's original UTF-8 size. */
  datatype FileInfo = FileInfo(size: nat, content: string, isTruncated: bool)

  type Tree = seq<(string, FileInfo)>

  function Keys(t: Tree): (ks: seq<string>)
    ensures |ks| == |t|
    ensures forall i :: 0 <= i < |t| ==> ks[i] == t[i].0
  {
    if t == [] then [] else [t[0].0] + Keys(t[1..])
  }

  predicate DistinctKeys(t: Tree) {
    forall i, j :: 0 <= i < j < |t| ==> t[i].0 != t[j].0
  }

  /** The position of `key` in `t`, or `|t|` when it is absent. */
  function IndexOf(t: Tree, key: string): (i: nat)
    ensures i <= |t|
    ensures i < |t| ==> t[i].0 == key
    ensures forall j :: 0 <= j < i ==> t[j].0 != key
  {
    if t == [] then 0
    else if t[0].0 == key then 0
    else 1 + IndexOf(t[1..], key)
  }

  lemma IndexOfUnique(t: Tree, key: string, i: nat)
    requires i <= |t|
    requires i < |t| ==> t[i].0 == key
    requires forall j :: 0 <= j < i ==> t[j].0 != key
    ensures IndexOf(t, key) == i
  {
  }

  /** `map.get(key)`, and the `find` by key over `map.entries()`. */
  function Get(t: Tree, key: string): (r: Option<FileInfo>)
    ensures r.Some? <==> key in Keys(t)
    ensures r.Some? ==> (key, r.value) in t
  {
    var i := IndexOf(t, key);
    if i < |t| then Some(t[i].1) else None
  }

  /** `map.set(key, info)`: a known key keeps its place, a new one goes last. */
  function Put(t: Tree, key: string, info: FileInfo): (r: Tree)
    ensures Keys(r) == if key in Keys(t) then Keys(t) else Keys(t) + [key]
    ensures Get(r, key) == Some(info)
    ensures forall k :: k != key ==> Get(r, k) == Get(t, k)
    ensures DistinctKeys(t) ==> DistinctKeys(r)
  {
    var i := IndexOf(t, key);
    var r := if i < |t| then t[i := (key, info)] else t + [(key, info)];
    PutKeys(t, key, info, i, r);
    IndexOfUnique(r, key, i);
    forall k | k != key
      ensures Get(r, k) == Get(t, k)
    {
      PutOther(t, key, info, i, r, k);
    }
    r
  }

  /** Setting `key` leaves the lookup of every other key as it was. */
  lemma PutOther(t: Tree, key: string, info: FileInfo, i: nat, r: Tree, k: string)
    requires i == IndexOf(t, key) && k != key
    requires r == if i < |t| then t[i := (key, info)] else t + [(key, info)]
    ensures Get(r, k) == Get(t, k)
  {
    var j := IndexOf(t, k);
    IndexOfUnique(r, k, if j == |t| then |r| else j);
  }

  /** The keys after replacing the record at `i`, or after appending one. */
  lemma PutKeys(t: Tree, key: string, info: FileInfo, i: nat, r: Tree)
    requires i == IndexOf(t, key)
    requires r == if i < |t| then t[i := (key, info)] else t + [(key, info)]
    ensures Keys(r) == if key in Keys(t) then Keys(t) else Keys(t) + [key]
  {
    if i < |t| {
      assert Keys(t)[i] == key;
      assert Keys(r) == Keys(t);
    } else {
      assert key !in Keys(t);
      assert Keys(r) == Keys(t) + [key];
    }
  }

  /** With distinct keys, the record found under a key is the one stored with it. */
  lemma GetDistinct(t: Tree, i: nat)
    requires DistinctKeys(t) && i < |t|
    ensures Get(t, t[i].0) == Some(t[i].1)
  {
    IndexOfUnique(t, t[i].0, i);
  }
}

/**
 * The values PHP code hands to json_encode and to PDO, and the ordered
 * associative arrays (`['key' => value, ...]`) that carry them.
 */
module Json {
  import opened Wrappers

  /** A PHP value as it appears in request parameters, rows and envelopes. */
  datatype Value =
    | Null
    | Bool(b: bool)
    | Int(i: int)
    | Str(s: string)
    | List(items: seq<Value>)
    | Object(fields: seq<(string, Value)>)

  /** A PHP associative array: keys in insertion order, each with its value. */
  type Fields = seq<(string, Value)>

  /** A response written by the API: its HTTP status and its JSON object. */
  datatype Response = Response(status: int, body: Fields)

  function KeysOf(f: Fields): (ks: seq<string>)
    ensures |ks| == |f|
    ensures forall i :: 0 <= i < |f| ==> ks[i] == f[i].0
  {
    seq(|f|, i requires 0 <= i < |f| => f[i].0)
  }

  /** No key occurs twice, as in every PHP array. */
  predicate DistinctKeys(f: Fields)
  {
    forall i, j :: 0 <= i < j < |f| ==> f[i].0 != f[j].0
  }

  /** Position of the first entry with key `k`, or |f| when there is none. */
  function IndexOf(f: Fields, k: string): (i: nat)
    ensures i <= |f|
    ensures i < |f| ==> f[i].0 == k
    ensures forall j :: 0 <= j < i ==> f[j].0 != k
    decreases |f|
  {
    if |f| == 0 then 0 else if f[0].0 == k then 0 else 1 + IndexOf(f[1..], k)
  }

  /** The three properties of IndexOf pin it down. */
  lemma IndexOfUnique(f: Fields, k: string, i: nat)
    requires i <= |f|
    requires i < |f| ==> f[i].0 == k
    requires forall j :: 0 <= j < i ==> f[j].0 != k
    ensures IndexOf(f, k) == i
  {
  }

  /** `$f[$k]`, or None when the key is absent. */
  function Get(f: Fields, k: string): (r: Option<Value>)
    ensures r.Some? <==> k in KeysOf(f)
  {
    var i := IndexOf(f, k);
    if i < |f| then Some(f[i].1) else None
  }

  /** The assignment `$f[$k] = $v`: overwrite in place, or append a new key. */
  function Put(f: Fields, k: string, v: Value): (r: Fields)
  {
    var i := IndexOf(f, k);
    if i < |f| then f[i := (k, v)] else f + [(k, v)]
  }

  /**
   * After `$f[$k] = $v` the key reads back as `$v`, every other key reads as
   * before, an existing key keeps its position and a new one goes last.
   */
  lemma PutProperties(f: Fields, k: string, v: Value)
    ensures Get(Put(f, k, v), k) == Some(v)
    ensures forall k' :: k' != k ==> Get(Put(f, k, v), k') == Get(f, k')
    ensures k in KeysOf(f) ==> KeysOf(Put(f, k, v)) == KeysOf(f)
    ensures k !in KeysOf(f) ==> KeysOf(Put(f, k, v)) == KeysOf(f) + [k]
    ensures DistinctKeys(f) ==> DistinctKeys(Put(f, k, v))
  {
    PutReads(f, k, v);
    PutKeys(f, k, v);
  }

  lemma PutReads(f: Fields, k: string, v: Value)
    ensures Get(Put(f, k, v), k) == Some(v)
    ensures forall k' :: k' != k ==> Get(Put(f, k, v), k') == Get(f, k')
  {
    var i := IndexOf(f, k);
    var r := Put(f, k, v);
    IndexOfUnique(r, k, i);
    forall k' | k' != k ensures Get(r, k') == Get(f, k') {
      var j := IndexOf(f, k');
      IndexOfUnique(r, k', if j < |f| then j else |r|);
    }
  }

  lemma PutKeys(f: Fields, k: string, v: Value)
    ensures k in KeysOf(f) ==> KeysOf(Put(f, k, v)) == KeysOf(f)
    ensures k !in KeysOf(f) ==> KeysOf(Put(f, k, v)) == KeysOf(f) + [k]
    ensures DistinctKeys(f) ==> DistinctKeys(Put(f, k, v))
  {
    var i := IndexOf(f, k);
    var r := Put(f, k, v);
    if i < |f| {
      assert KeysOf(r) == KeysOf(f);
    } else {
      assert KeysOf(r) == KeysOf(f) + [k];
    }
  }
}

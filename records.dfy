/**
  A record is a JavaScript object whose properties are all strings.  Property
  order is observable (`Object.keys`, `JSON.stringify`), so a record is the
  sequence of its (key, value) pairs in insertion order.  Every key the
  backend ever stores is a whitelisted column header, so none of them is an
  array-index-like key, which JavaScript would otherwise list first.
*/
module Records {
  import opened Wrappers

  type Record = seq<(string, string)>

  /** The keys of `r`, in order: what `Object.keys` returns. */
  function Keys(r: Record): seq<string> {
    seq(|r|, p requires 0 <= p < |r| => r[p].0)
  }

  predicate Distinct(ks: seq<string>) {
    forall p, q | 0 <= p < q < |ks| :: ks[p] != ks[q]
  }

  /** No key occurs twice: every JavaScript object has this shape. */
  predicate DistinctKeys(r: Record) {
    Distinct(Keys(r))
  }

  /** Property lookup `r[k]`; `None` stands for `undefined`. */
  function Get(r: Record, k: string): (v: Option<string>)
    ensures v.None? <==> k !in Keys(r)
  {
    if r == [] then None
    else if r[0].0 == k then (assert Keys(r)[0] == k; Some(r[0].1))
    else (assert Keys(r) == [r[0].0] + Keys(r[1..]); Get(r[1..], k))
  }

  /** In a record with distinct keys, each pair is what lookup of its key finds. */
  lemma {:induction false} GetAt(r: Record, p: nat)
    requires DistinctKeys(r) && p < |r|
    ensures Get(r, r[p].0) == Some(r[p].1)
  {
    if p > 0 {
      assert Keys(r)[0] != Keys(r)[p];
      assert Keys(r[1..]) == Keys(r)[1..];
      GetAt(r[1..], p - 1);
    }
  }

  /**
    Property assignment `r[k] = v`: an existing key keeps its place and takes
    the new value, a new key is added at the end.
  */
  function Put(r: Record, k: string, v: string): (r': Record)
    ensures Keys(r') == if k in Keys(r) then Keys(r) else Keys(r) + [k]
    ensures DistinctKeys(r) ==> DistinctKeys(r')
  {
    if r == [] then (assert Keys([(k, v)]) == [k]; [(k, v)])
    else if r[0].0 == k then
      var r' := [(k, v)] + r[1..];
      assert Keys(r') == Keys(r) && Keys(r)[0] == k;
      r'
    else
      var t := Put(r[1..], k, v);
      var r' := [r[0]] + t;
      assert Keys(r) == [r[0].0] + Keys(r[1..]);
      assert Keys(r') == [r[0].0] + Keys(t);
      assert k in Keys(r) <==> k in Keys(r[1..]);
      r'
  }

  /** After `r[k] = v`, `r[k]` is `v` and every other property reads as before. */
  lemma {:induction false} PutGet(r: Record, k: string, v: string, k': string)
    ensures Get(Put(r, k, v), k') == if k' == k then Some(v) else Get(r, k')
  {
    if r != [] && r[0].0 != k {
      PutGet(r[1..], k, v, k');
      assert Put(r, k, v) == [r[0]] + Put(r[1..], k, v);
    }
  }

  /** Assigning a key the record does not have appends the pair. */
  lemma {:induction false} PutFresh(r: Record, k: string, v: string)
    requires k !in Keys(r)
    ensures Put(r, k, v) == r + [(k, v)]
  {
    if r != [] {
      assert Keys(r)[0] == r[0].0;
      assert r[0].0 != k;
      assert Keys(r[1..]) == Keys(r)[1..];
      PutFresh(r[1..], k, v);
      assert Put(r, k, v) == [r[0]] + Put(r[1..], k, v);
      assert [r[0]] + (r[1..] + [(k, v)]) == r + [(k, v)];
    }
  }

  /** Assigning a key the record has replaces its value and nothing else. */
  lemma {:induction false} PutExisting(r: Record, p: nat, v: string)
    requires DistinctKeys(r) && p < |r|
    ensures Put(r, r[p].0, v) == r[p := (r[p].0, v)]
  {
    if p == 0 {
      assert Put(r, r[0].0, v) == [(r[0].0, v)] + r[1..];
    } else {
      var k := r[p].0;
      assert Keys(r)[0] != Keys(r)[p];
      assert r[0].0 != k;
      assert Keys(r[1..]) == Keys(r)[1..];
      assert r[1..][p - 1] == r[p];
      PutExisting(r[1..], p - 1, v);
      assert Put(r, k, v) == [r[0]] + Put(r[1..], k, v);
      assert [r[0]] + r[1..][p - 1 := (k, v)] == r[p := (k, v)];
    }
  }
}

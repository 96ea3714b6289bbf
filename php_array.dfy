/**
 * PHP arrays with string keys, as the filters and the row-action builder use them:
 * an ordered list of key/value entries. Writing `$a[k] = v` updates the entry of an
 * existing key where it stands and appends a new key at the end, so iteration
 * (`foreach`) sees the keys in insertion order.
 */
module PhpArray {
  import opened Options

  datatype Entry = Entry(key: string, value: string)

  type Assoc = seq<Entry>

  /** The keys of `a`, in iteration order. */
  function Keys(a: Assoc): seq<string>
  {
    seq(|a|, i requires 0 <= i < |a| => a[i].key)
  }

  /** Every PHP array has pairwise distinct keys. */
  predicate DistinctKeys(a: Assoc)
  {
    forall i, j :: 0 <= i < j < |a| ==> a[i].key != a[j].key
  }

  /** `$a[k]`, or None when the key is not set. */
  function Lookup(a: Assoc, k: string): (r: Option<string>)
    ensures r.None? <==> k !in Keys(a)
  {
    if a == [] then None
    else if a[0].key == k then
      assert Keys(a)[0] == k;
      Some(a[0].value)
    else
      assert Keys(a) == [a[0].key] + Keys(a[1..]);
      Lookup(a[1..], k)
  }

  /** Looking a key up in an array that starts with `e`. */
  lemma LookupCons(e: Entry, rest: Assoc, j: string)
    ensures Lookup([e] + rest, j) == if e.key == j then Some(e.value) else Lookup(rest, j)
  {
    assert ([e] + rest)[1..] == rest;
  }

  /**
   * `$a[k] = v`: the key reads back `v`, every other key reads as before, an existing
   * key keeps its position and a new key is appended after all the others.
   */
  function Assign(a: Assoc, k: string, v: string): (r: Assoc)
    ensures Lookup(r, k) == Some(v)
    ensures forall j :: j != k ==> Lookup(r, j) == Lookup(a, j)
    ensures k in Keys(a) ==> Keys(r) == Keys(a)
    ensures k !in Keys(a) ==> r == a + [Entry(k, v)]
  {
    if a == [] then [Entry(k, v)]
    else if a[0].key == k then
      AssignFirst(a, k, v);
      [Entry(k, v)] + a[1..]
    else
      var rest := Assign(a[1..], k, v);
      AssignLater(a, k, v, rest);
      [a[0]] + rest
  }

  /** The keys of an array that starts with `e`. */
  lemma KeysCons(e: Entry, rest: Assoc)
    ensures Keys([e] + rest) == [e.key] + Keys(rest)
  {
  }

  /** Assigning the first key replaces its value where it stands. */
  lemma AssignFirst(a: Assoc, k: string, v: string)
    requires a != [] && a[0].key == k
    ensures var r := [Entry(k, v)] + a[1..];
      && Lookup(r, k) == Some(v)
      && (forall j :: j != k ==> Lookup(r, j) == Lookup(a, j))
      && Keys(r) == Keys(a)
  {
    assert a == [a[0]] + a[1..];
    KeysCons(a[0], a[1..]);
    KeysCons(Entry(k, v), a[1..]);
    LookupCons(Entry(k, v), a[1..], k);
    forall j | j != k ensures Lookup([Entry(k, v)] + a[1..], j) == Lookup(a, j) {
      LookupCons(Entry(k, v), a[1..], j);
      LookupCons(a[0], a[1..], j);
    }
  }

  /** Assigning a key other than the first one leaves the first entry in front. */
  lemma AssignLater(a: Assoc, k: string, v: string, rest: Assoc)
    requires a != [] && a[0].key != k
    requires Lookup(rest, k) == Some(v)
    requires forall j :: j != k ==> Lookup(rest, j) == Lookup(a[1..], j)
    requires k in Keys(a[1..]) ==> Keys(rest) == Keys(a[1..])
    requires k !in Keys(a[1..]) ==> rest == a[1..] + [Entry(k, v)]
    ensures var r := [a[0]] + rest;
      && Lookup(r, k) == Some(v)
      && (forall j :: j != k ==> Lookup(r, j) == Lookup(a, j))
      && (k in Keys(a) ==> Keys(r) == Keys(a))
      && (k !in Keys(a) ==> r == a + [Entry(k, v)])
  {
    assert a == [a[0]] + a[1..];
    KeysCons(a[0], a[1..]);
    KeysCons(a[0], rest);
    LookupCons(a[0], rest, k);
    forall j | j != k ensures Lookup([a[0]] + rest, j) == Lookup(a, j) {
      LookupCons(a[0], rest, j);
      LookupCons(a[0], a[1..], j);
    }
  }

  /** Assignment keeps the keys of a PHP array distinct. */
  lemma {:induction false} AssignKeepsKeysDistinct(a: Assoc, k: string, v: string)
    ensures DistinctKeys(a) ==> DistinctKeys(Assign(a, k, v))
  {
    var r := Assign(a, k, v);
    if !DistinctKeys(a) {
    } else if k in Keys(a) {
      assert |Keys(r)| == |Keys(a)|;
      forall i | 0 <= i < |r| ensures r[i].key == a[i].key {
        assert Keys(r)[i] == Keys(a)[i];
      }
    } else {
      forall i | 0 <= i < |a| ensures a[i].key != k {
        assert Keys(a)[i] == a[i].key;
      }
    }
  }
}

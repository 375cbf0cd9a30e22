/** Decoded JSON values as the backends' response repair sees them. An
    object is an association list in insertion order, as a Python `dict`
    keeps it: reading finds a key's entry, writing an existing key
    replaces its value in place, writing a new key appends it. */
module Json {
  import opened Outcomes

  datatype Value =
    | Null
    | Bool(b: bool)
    | Number(n: real)
    | Str(s: string)
    | Array(items: seq<Value>)
    | Object(fields: seq<(string, Value)>)

  type Fields = seq<(string, Value)>

  function Keys(o: Fields): (r: seq<string>)
    ensures |r| == |o|
    ensures forall i :: 0 <= i < |o| ==> r[i] == o[i].0
  {
    if |o| == 0 then [] else [o[0].0] + Keys(o[1..])
  }

  /** A Python dict never holds a key twice. */
  predicate UniqueKeys(o: Fields) {
    forall i, j :: 0 <= i < j < |o| ==> o[i].0 != o[j].0
  }

  /** `o.get(k)`: the value of the first entry for `k`. */
  function Get(o: Fields, k: string): (r: Option<Value>)
    ensures r.Some? ==> (k, r.value) in o
    ensures r.None? ==> forall i :: 0 <= i < |o| ==> o[i].0 != k
  {
    if |o| == 0 then None
    else if o[0].0 == k then Some(o[0].1)
    else Get(o[1..], k)
  }

  /** `k in o` */
  predicate Has(o: Fields, k: string) {
    Get(o, k).Some?
  }

  lemma HasIffKey(o: Fields, k: string)
    ensures Has(o, k) <==> k in Keys(o)
  {
    if Has(o, k) {
      assert (k, Get(o, k).value) in o;
    }
  }

  /** `o[k] = v`: replaces the value of an existing key where it stands,
      appends a new key at the end. */
  function Set(o: Fields, k: string, v: Value): (r: Fields)
    ensures Get(r, k) == Some(v)
    ensures forall x :: x != k ==> Get(r, x) == Get(o, x)
    ensures |r| == if Has(o, k) then |o| else |o| + 1
  {
    if |o| == 0 then [(k, v)]
    else if o[0].0 == k then [(k, v)] + o[1..]
    else [o[0]] + Set(o[1..], k, v)
  }

  /** An existing key keeps its place. */
  lemma {:induction false} SetKeepsKeys(o: Fields, k: string, v: Value)
    requires Has(o, k)
    ensures Keys(Set(o, k, v)) == Keys(o)
  {
    if o[0].0 != k {
      SetKeepsKeys(o[1..], k, v);
      assert Set(o, k, v)[1..] == Set(o[1..], k, v);
    }
  }

  /** A new key goes at the end. */
  lemma {:induction false} SetAppends(o: Fields, k: string, v: Value)
    requires !Has(o, k)
    ensures Set(o, k, v) == o + [(k, v)]
  {
    if |o| > 0 {
      assert o[0].0 != k && !Has(o[1..], k);
      SetAppends(o[1..], k, v);
      assert Set(o, k, v) == [o[0]] + (o[1..] + [(k, v)]);
      assert o == [o[0]] + o[1..];
    }
  }

  /** Writing keeps the keys distinct. */
  lemma {:induction false} SetKeepsUnique(o: Fields, k: string, v: Value)
    requires UniqueKeys(o)
    ensures UniqueKeys(Set(o, k, v))
  {
    var r := Set(o, k, v);
    if Has(o, k) {
      SetKeepsKeys(o, k, v);
      assert forall i :: 0 <= i < |o| ==> r[i].0 == Keys(r)[i] == Keys(o)[i];
    } else {
      SetAppends(o, k, v);
    }
  }

  /** Writing the value a key already has changes nothing. */
  lemma {:induction false} SetExisting(o: Fields, k: string, v: Value)
    requires Get(o, k) == Some(v)
    ensures Set(o, k, v) == o
  {
    if |o| > 0 && o[0].0 != k {
      SetExisting(o[1..], k, v);
    }
  }

  /** Writing the same key twice is the same as writing it once. */
  lemma SetTwice(o: Fields, k: string, v: Value, w: Value)
    ensures Set(Set(o, k, v), k, w) == Set(o, k, w)
  {
    if |o| > 0 && o[0].0 != k {
      SetTwice(o[1..], k, v, w);
    }
  }

  /** What `for x in v` iterates over: the items of a list, the characters
      of a string as one-character strings, the keys of an object; any
      other value raises a type error. */
  function Iterate(v: Value, key: string): (r: Result<seq<Value>>)
    ensures r.Err? <==> !(v.Array? || v.Str? || v.Object?)
    ensures r.Err? ==> r.error == NotIterable(key)
    ensures v.Array? ==> r == Ok(v.items)
    ensures r.Ok? && !v.Array? ==> forall i :: 0 <= i < |r.value| ==> r.value[i].Str?
    // a string yields its characters, one per item, in order
    ensures v.Str? ==> |r.value| == |v.s| && forall i :: 0 <= i < |v.s| ==> r.value[i] == Str([v.s[i]])
    // an object yields its keys in insertion order
    ensures v.Object? ==> |r.value| == |v.fields| && forall i :: 0 <= i < |v.fields| ==> r.value[i] == Str(v.fields[i].0)
  {
    match v
    case Array(items) => Ok(items)
    case Str(s) => Ok(seq(|s|, i requires 0 <= i < |s| => Str([s[i]])))
    case Object(fields) => Ok(seq(|fields|, i requires 0 <= i < |fields| => Str(fields[i].0)))
    case _ => Err(NotIterable(key))
  }
}

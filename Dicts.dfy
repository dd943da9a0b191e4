/** A Python `dict` keyed by strings: a map plus the order in which its
    keys were first inserted, which is the order `items()` walks. */
module Dicts {
  import opened Wrappers

  datatype Dict<V> = Dict(keys: seq<string>, values: map<string, V>)

  /** Every key is listed once, and the listed keys are the mapped ones. */
  ghost predicate Valid<V>(d: Dict<V>) {
    && (forall i, j :: 0 <= i < j < |d.keys| ==> d.keys[i] != d.keys[j])
    && (forall k :: k in d.values <==> k in d.keys)
  }

  /** Python's `not d`. */
  predicate IsEmpty<V>(d: Dict<V>) {
    |d.values| == 0
  }

  function Empty<V>(): (d: Dict<V>)
    ensures Valid(d) && IsEmpty(d)
  {
    Dict([], map[])
  }

  /** `d[k] = v`: a new key goes last, an existing key keeps its place. */
  function Put<V>(d: Dict<V>, k: string, v: V): (r: Dict<V>)
    ensures !IsEmpty(r)
    ensures r.values == d.values[k := v]
    ensures k in d.values ==> r.keys == d.keys
    ensures k !in d.values ==> r.keys == d.keys + [k]
  {
    assert k in d.values[k := v];
    if k in d.values then Dict(d.keys, d.values[k := v]) else Dict(d.keys + [k], d.values[k := v])
  }

  /** Assignment keeps a dict well formed. */
  lemma PutValid<V>(d: Dict<V>, k: string, v: V)
    requires Valid(d)
    ensures Valid(Put(d, k, v))
  {
    var r := Put(d, k, v);
    if k !in d.values {
      forall i, j | 0 <= i < j < |r.keys|
        ensures r.keys[i] != r.keys[j]
      {
        if j == |d.keys| {
          assert r.keys[i] == d.keys[i];
        }
      }
    }
  }

  // ----- a dict filled by a loop of `d[key(x)] = value(x)` assignments -----

  /** The dict a loop builds by computing, for each item in turn, a key and a
      value and assigning the value to the key; the first item whose value
      cannot be computed aborts the loop. */
  function Build<V>(items: seq<string>, key: string -> string, value: string -> Result<V>): Result<Dict<V>> {
    if items == [] then Success(Empty())
    else
      match Build(items[..|items| - 1], key, value)
      case Failure(err) => Failure(err)
      case Success(d) =>
        var x := items[|items| - 1];
        match value(x)
        case Failure(err) => Failure(err)
        case Success(v) => Success(Put(d, key(x), v))
  }

  /** What the loop builds is a well-formed dict. */
  lemma {:induction false} BuildValid<V>(items: seq<string>, key: string -> string, value: string -> Result<V>)
    requires Build(items, key, value).Success?
    ensures Valid(Build(items, key, value).value)
  {
    if items != [] {
      var init := items[..|items| - 1];
      var x := items[|items| - 1];
      BuildValid(init, key, value);
      PutValid(Build(init, key, value).value, key(x), value(x).value);
    }
  }

  /** Once a value fails, the rest of the loop never runs: the failure of a
      prefix is the failure of the whole. */
  lemma {:induction false} BuildAborts<V>(items: seq<string>, key: string -> string, value: string -> Result<V>, n: nat)
    requires n <= |items|
    requires Build(items[..n], key, value).Failure?
    ensures Build(items, key, value) == Build(items[..n], key, value)
    decreases |items| - n
  {
    if n == |items| {
      assert items[..n] == items;
    } else {
      var init := items[..|items| - 1];
      assert init[..n] == items[..n];
      BuildAborts(init, key, value, n);
    }
  }

  /** The loop completes exactly when every value can be computed. */
  lemma {:induction false} BuildSucceeds<V>(items: seq<string>, key: string -> string, value: string -> Result<V>)
    ensures Build(items, key, value).Success? <==> forall j :: 0 <= j < |items| ==> value(items[j]).Success?
  {
    if items != [] {
      var init := items[..|items| - 1];
      var last := |items| - 1;
      BuildSucceeds(init, key, value);
      if Build(items, key, value).Success? {
        forall j | 0 <= j < |items|
          ensures value(items[j]).Success?
        {
          if j < last {
            assert init[j] == items[j];
          }
        }
      } else if Build(init, key, value).Success? {
        assert !value(items[last]).Success?;
      } else {
        var j :| 0 <= j < |init| && !value(init[j]).Success?;
        assert init[j] == items[j];
      }
    }
  }

  /** The keys of the dict are exactly the keys of the items. */
  lemma {:induction false} BuildKeys<V>(items: seq<string>, key: string -> string, value: string -> Result<V>)
    requires Build(items, key, value).Success?
    ensures forall k :: k in Build(items, key, value).value.values <==>
                        exists j :: 0 <= j < |items| && key(items[j]) == k
  {
    if items != [] {
      var init := items[..|items| - 1];
      BuildKeys(init, key, value);
      assert forall j :: 0 <= j < |init| ==> init[j] == items[j];
    }
  }

  /** A key shared by several items holds the value of the last of them. */
  lemma {:induction false} BuildLastWins<V>(items: seq<string>, key: string -> string, value: string -> Result<V>, j: nat)
    requires Build(items, key, value).Success?
    requires j < |items|
    requires forall j' :: j < j' < |items| ==> key(items[j']) != key(items[j])
    ensures value(items[j]).Success?
    ensures key(items[j]) in Build(items, key, value).value.values
    ensures Build(items, key, value).value.values[key(items[j])] == value(items[j]).value
  {
    var init := items[..|items| - 1];
    if j < |items| - 1 {
      assert init[j] == items[j];
      forall j' | j < j' < |init|
        ensures key(init[j']) != key(init[j])
      {
        assert init[j'] == items[j'];
      }
      BuildLastWins(init, key, value, j);
    }
  }

  /** When no two items share a key, the dict lists the keys in the order of
      the items. */
  lemma {:induction false} BuildOrder<V>(items: seq<string>, key: string -> string, value: string -> Result<V>)
    requires Build(items, key, value).Success?
    requires forall a, b :: 0 <= a < b < |items| ==> key(items[a]) != key(items[b])
    ensures |Build(items, key, value).value.keys| == |items|
    ensures forall j :: 0 <= j < |items| ==> Build(items, key, value).value.keys[j] == key(items[j])
  {
    if items != [] {
      var init := items[..|items| - 1];
      forall a, b | 0 <= a < b < |init|
        ensures key(init[a]) != key(init[b])
      {
        assert init[a] == items[a] && init[b] == items[b];
      }
      BuildOrder(init, key, value);
      BuildKeys(init, key, value);
      var d := Build(init, key, value).value;
      var x := items[|items| - 1];
      forall j | 0 <= j < |init|
        ensures key(init[j]) != key(x)
      {
        assert init[j] == items[j];
      }
      assert key(x) !in d.values;
      assert Build(items, key, value).value.keys == d.keys + [key(x)];
      forall j | 0 <= j < |items|
        ensures Build(items, key, value).value.keys[j] == key(items[j])
      {
        if j < |init| {
          assert init[j] == items[j];
        }
      }
    }
  }
}

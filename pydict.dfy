/** Python's `dict` with string keys, as the parser's rows use it: an
    association list in insertion order, since the order of a row's keys is
    the order of the CSV header. */
module PyDict {
  import opened Outcomes

  /** A row value: the minute string under "time", an int count elsewhere. */
  datatype Value = Text(text: string) | Int(n: int)

  datatype Dict = Dict(entries: seq<(string, Value)>)

  function Tail(d: Dict): Dict
    requires d.entries != []
  {
    Dict(d.entries[1..])
  }

  /** `list(d.keys())`, in insertion order. */
  function Keys(d: Dict): (ks: seq<string>)
    ensures |ks| == |d.entries|
    decreases |d.entries|
  {
    if d.entries == [] then [] else [d.entries[0].0] + Keys(Tail(d))
  }

  /** A Python dict never holds a key twice. */
  predicate Valid(d: Dict)
    decreases |d.entries|
  {
    d.entries == [] || (d.entries[0].0 !in Keys(Tail(d)) && Valid(Tail(d)))
  }

  /** `d[k]`, with None where Python raises KeyError. */
  function Get(d: Dict, k: string): Option<Value>
    decreases |d.entries|
  {
    if d.entries == [] then None
    else if d.entries[0].0 == k then Some(d.entries[0].1)
    else Get(Tail(d), k)
  }

  /** A lookup succeeds exactly for the keys of the dict. */
  lemma {:induction false} GetSome(d: Dict, k: string)
    ensures Get(d, k).Some? <==> k in Keys(d)
    decreases |d.entries|
  {
    if d.entries != [] && d.entries[0].0 != k {
      GetSome(Tail(d), k);
    }
  }

  /** `d[k] = v`: an existing key keeps its place, a new key goes last. */
  function Put(d: Dict, k: string, v: Value): Dict
    decreases |d.entries|
  {
    if d.entries == [] then Dict([(k, v)])
    else if d.entries[0].0 == k then Dict([(k, v)] + d.entries[1..])
    else Dict([d.entries[0]] + Put(Tail(d), k, v).entries)
  }

  /** After `d[k] = v`, `k` maps to `v` and every other key is unchanged. */
  lemma {:induction false} PutGet(d: Dict, k: string, v: Value, j: string)
    ensures Get(Put(d, k, v), j) == if j == k then Some(v) else Get(d, j)
    decreases |d.entries|
  {
    if d.entries != [] {
      var r := Put(d, k, v);
      if d.entries[0].0 == k {
        assert Tail(r) == Tail(d);
      } else {
        assert Tail(r) == Put(Tail(d), k, v);
        PutGet(Tail(d), k, v, j);
      }
    }
  }

  /** `d[k] = v` keeps the key order and appends a new key. */
  lemma {:induction false} PutKeys(d: Dict, k: string, v: Value)
    ensures Keys(Put(d, k, v)) == if k in Keys(d) then Keys(d) else Keys(d) + [k]
    decreases |d.entries|
  {
    if d.entries != [] {
      var r := Put(d, k, v);
      if d.entries[0].0 == k {
        assert Tail(r) == Tail(d);
      } else {
        assert Tail(r) == Put(Tail(d), k, v);
        PutKeys(Tail(d), k, v);
      }
    }
  }

  /** `d[k] = v` never duplicates a key. */
  lemma {:induction false} PutValid(d: Dict, k: string, v: Value)
    requires Valid(d)
    ensures Valid(Put(d, k, v))
    decreases |d.entries|
  {
    if d.entries != [] {
      var r := Put(d, k, v);
      if d.entries[0].0 == k {
        assert Tail(r) == Tail(d);
      } else {
        assert Tail(r) == Put(Tail(d), k, v);
        PutValid(Tail(d), k, v);
        PutKeys(Tail(d), k, v);
      }
    }
  }

  /** `d[k] += 1`: KeyError for a missing key, TypeError for a string. */
  function AddOne(d: Dict, k: string): Result<Dict> {
    match Get(d, k)
    case None => Failure(KeyError(k))
    case Some(Text(_)) => Failure(TypeError)
    case Some(Int(n)) => Success(Put(d, k, Int(n + 1)))
  }

  /** `d[k] += 1` raises KeyError exactly for a missing key and TypeError
      exactly for a string cell; otherwise the keys and their order stay,
      `k` holds one more and every other key is unchanged. */
  lemma AddOneEffect(d: Dict, k: string, j: string)
    ensures AddOne(d, k) == Failure(KeyError(k)) <==> k !in Keys(d)
    ensures AddOne(d, k) == Failure(TypeError) <==> Get(d, k).Some? && Get(d, k).value.Text?
    ensures AddOne(d, k).Success? ==>
              && Get(d, k).Some? && Get(d, k).value.Int?
              && Keys(AddOne(d, k).value) == Keys(d)
              && Get(AddOne(d, k).value, j)
                 == if j == k then Some(Int(Get(d, k).value.n + 1)) else Get(d, j)
  {
    GetSome(d, k);
    if Get(d, k).Some? && Get(d, k).value.Int? {
      PutKeys(d, k, Int(Get(d, k).value.n + 1));
      PutGet(d, k, Int(Get(d, k).value.n + 1), j);
    }
  }

  function Init(d: Dict): Dict
    requires d.entries != []
  {
    Dict(d.entries[..|d.entries| - 1])
  }

  function LastEntry(d: Dict): (string, Value)
    requires d.entries != []
  {
    d.entries[|d.entries| - 1]
  }

  lemma {:induction false} KeysSnoc(d: Dict)
    requires d.entries != []
    ensures Keys(d) == Keys(Init(d)) + [LastEntry(d).0]
    decreases |d.entries|
  {
    if |d.entries| > 1 {
      KeysSnoc(Tail(d));
      assert Tail(Init(d)) == Init(Tail(d));
      assert LastEntry(Tail(d)) == LastEntry(d);
    } else {
      assert Init(d).entries == [];
    }
  }

  /** `d.update(other)`: `other`'s entries put into `d` in `other`'s order. */
  function Update(d: Dict, other: Dict): Dict
    decreases |other.entries|
  {
    if other.entries == [] then d
    else Put(Update(d, Init(other)), LastEntry(other).0, LastEntry(other).1)
  }

  lemma {:induction false} UpdateValid(d: Dict, other: Dict)
    requires Valid(d)
    ensures Valid(Update(d, other))
    decreases |other.entries|
  {
    if other.entries != [] {
      UpdateValid(d, Init(other));
      PutValid(Update(d, Init(other)), LastEntry(other).0, LastEntry(other).1);
    }
  }

  /** After `d.update(other)` a key has `other`'s value if `other` has it and
      keeps its old value otherwise. */
  lemma {:induction false} UpdateGet(d: Dict, other: Dict, k: string)
    requires Valid(d) && Valid(other)
    ensures Get(Update(d, other), k) == if k in Keys(other) then Get(other, k) else Get(d, k)
    decreases |other.entries|
  {
    if other.entries != [] {
      ValidInit(other);
      KeysSnoc(other);
      GetSnoc(other, k);
      UpdateGet(d, Init(other), k);
      PutGet(Update(d, Init(other)), LastEntry(other).0, LastEntry(other).1, k);
    }
  }

  lemma {:induction false} GetSnoc(d: Dict, k: string)
    requires d.entries != []
    ensures Get(d, k) == if k in Keys(Init(d)) then Get(Init(d), k)
                         else if k == LastEntry(d).0 then Some(LastEntry(d).1) else None
    decreases |d.entries|
  {
    if |d.entries| > 1 {
      GetSnoc(Tail(d), k);
      GetSome(Init(d), k);
      GetSome(Init(Tail(d)), k);
      assert Tail(Init(d)) == Init(Tail(d));
      assert LastEntry(Tail(d)) == LastEntry(d);
    } else {
      assert Init(d).entries == [];
    }
  }

  /** Keys new to `d` are appended in `other`'s order. */
  lemma {:induction false} UpdateKeys(d: Dict, other: Dict)
    requires Valid(d) && Valid(other)
    requires forall k :: k in Keys(other) ==> k !in Keys(d)
    ensures Keys(Update(d, other)) == Keys(d) + Keys(other)
    decreases |other.entries|
  {
    if other.entries != [] {
      var last := LastEntry(other);
      var kd, ki := Keys(d), Keys(Init(other));
      UpdateKeysStep(d, other);
      UpdateKeys(d, Init(other));
      UpdateValid(d, Init(other));
      PutKeys(Update(d, Init(other)), last.0, last.1);
      assert kd + (ki + [last.0]) == (kd + ki) + [last.0];
    }
  }

  lemma UpdateKeysStep(d: Dict, other: Dict)
    requires Valid(d) && Valid(other) && other.entries != []
    requires forall k :: k in Keys(other) ==> k !in Keys(d)
    ensures Keys(other) == Keys(Init(other)) + [LastEntry(other).0]
    ensures LastEntry(other).0 !in Keys(d) + Keys(Init(other))
    ensures Valid(Init(other))
    ensures forall k :: k in Keys(Init(other)) ==> k !in Keys(d)
  {
    KeysSnoc(other);
    ValidInit(other);
    assert LastEntry(other).0 in Keys(other);
    forall k | k in Keys(Init(other))
      ensures k !in Keys(d)
    {
      assert k in Keys(other);
    }
  }

  lemma {:induction false} ValidInit(d: Dict)
    requires Valid(d) && d.entries != []
    ensures Valid(Init(d)) && LastEntry(d).0 !in Keys(Init(d))
    decreases |d.entries|

  {
    if |d.entries| > 1 {
      ValidInit(Tail(d));
      assert Tail(Init(d)) == Init(Tail(d));
      assert LastEntry(Tail(d)) == LastEntry(d);
      KeysSnoc(Tail(d));
    } else {
      assert Init(d).entries == [];
    }
  }

  predicate Distinct<T(==)>(s: seq<T>) {
    forall i, j :: 0 <= i < j < |s| ==> s[i] != s[j]
  }

  /** `{k: v for k in ks}`. */
  function FromKeys(ks: seq<string>, v: Value): Dict {
    if ks == [] then Dict([]) else Put(FromKeys(ks[..|ks| - 1], v), ks[|ks| - 1], v)
  }

  /** The comprehension maps exactly the listed keys to `v`. */
  lemma {:induction false} FromKeysGet(ks: seq<string>, v: Value, k: string)
    ensures Get(FromKeys(ks, v), k) == if k in ks then Some(v) else None
  {
    if ks != [] {
      var init, last := ks[..|ks| - 1], ks[|ks| - 1];
      assert ks == init + [last];
      FromKeysGet(init, v, k);
      PutGet(FromKeys(init, v), last, v, k);
    }
  }

  /** The comprehension holds each key once and, for distinct keys, keeps
      their order. */
  lemma {:induction false} FromKeysKeys(ks: seq<string>, v: Value)
    ensures Valid(FromKeys(ks, v))
    ensures Distinct(ks) ==> Keys(FromKeys(ks, v)) == ks
  {
    if ks != [] {
      var init, last := ks[..|ks| - 1], ks[|ks| - 1];
      assert ks == init + [last];
      FromKeysKeys(init, v);
      PutValid(FromKeys(init, v), last, v);
      PutKeys(FromKeys(init, v), last, v);
      assert Distinct(ks) ==> Distinct(init) && last !in init;
    }
  }

  /** Two dicts with the same keys in the same order and the same values are equal. */
  lemma {:induction false} Extensionality(d1: Dict, d2: Dict)
    requires Valid(d1) && Valid(d2)
    requires Keys(d1) == Keys(d2)
    requires forall k :: Get(d1, k) == Get(d2, k)
    ensures d1 == d2
    decreases |d1.entries|
  {
    if d1.entries != [] {
      var k0 := d1.entries[0].0;
      assert d2.entries[0].0 == Keys(d2)[0] == k0;
      assert Get(d1, k0) == Some(d1.entries[0].1) && Get(d2, k0) == Some(d2.entries[0].1);
      assert Keys(Tail(d1)) == Keys(d1)[1..] == Keys(d2)[1..] == Keys(Tail(d2));
      forall k
        ensures Get(Tail(d1), k) == Get(Tail(d2), k)
      {
        if k != k0 {
          assert Get(d1, k) == Get(Tail(d1), k) && Get(d2, k) == Get(Tail(d2), k);
        } else {
          GetSome(Tail(d1), k);
          GetSome(Tail(d2), k);
        }
      }
      Extensionality(Tail(d1), Tail(d2));
      assert d1.entries == [d1.entries[0]] + Tail(d1).entries;
      assert d2.entries == [d2.entries[0]] + Tail(d2).entries;
    } else {
      assert |d2.entries| == |Keys(d2)| == 0;
    }
  }

  /** Key `i` is the key of entry `i`. */
  lemma {:induction false} KeysIndex(d: Dict)
    ensures forall i :: 0 <= i < |d.entries| ==> Keys(d)[i] == d.entries[i].0
    decreases |d.entries|
  {
    if d.entries != [] {
      KeysIndex(Tail(d));
    }
  }

  /** Entries with pairwise different keys form a dict. */
  lemma {:induction false} DistinctValid(d: Dict)
    requires Distinct(Keys(d))
    ensures Valid(d)
    decreases |d.entries|
  {
    if d.entries != [] {
      var ks := Keys(d);
      assert Keys(Tail(d)) == ks[1..];
      assert Distinct(Keys(Tail(d)));
      assert d.entries[0].0 == ks[0] && ks[0] !in ks[1..];
      DistinctValid(Tail(d));
    }
  }

  /** Looking up the key of entry `i` gives the value of entry `i`. */
  lemma {:induction false} GetIndex(d: Dict, i: nat)
    requires Valid(d) && i < |d.entries|
    ensures Get(d, d.entries[i].0) == Some(d.entries[i].1)
    decreases |d.entries|
  {
    if i > 0 {
      KeysIndex(Tail(d));
      assert Tail(d).entries[i - 1] == d.entries[i];
      assert d.entries[i].0 == Keys(Tail(d))[i - 1];
      assert d.entries[0].0 != d.entries[i].0;
      GetIndex(Tail(d), i - 1);
    }
  }
}

/** A string-keyed dictionary as the forecast uses one: a sequence of slots in
    first-insertion order. Assigning to a key that is present replaces its
    value where it stands; assigning to a new key appends a slot. Summing the
    values visits the slots in order. */
module InsertionDict {

  datatype Slot = Slot(key: string, value: real)

  type Dict = seq<Slot>

  function Keys(d: Dict): set<string>
  {
    set s | s in d :: s.key
  }

  /** No key occupies two slots; every dictionary built by Put keeps this. */
  predicate DistinctKeys(d: Dict)
  {
    forall i, j :: 0 <= i < j < |d| ==> d[i].key != d[j].key
  }

  /** The value stored under a present key. */
  function Get(d: Dict, k: string): (v: real)
    requires k in Keys(d)
    ensures exists i :: 0 <= i < |d| && d[i] == Slot(k, v)
  {
    if d[0].key == k then d[0].value
    else
      assert k in Keys(d[1..]) by {
        var s :| s in d && s.key == k;
        assert s in d[1..];
      }
      Get(d[1..], k)
  }

  /** `d[k] = v`. */
  function Put(d: Dict, k: string, v: real): Dict
  {
    if |d| == 0 then [Slot(k, v)]
    else if d[0].key == k then [Slot(k, v)] + d[1..]
    else [d[0]] + Put(d[1..], k, v)
  }

  /** Assignment adds the key and nothing else; a new key gets a new last
      slot, a present key keeps the slot count. */
  lemma {:induction false} PutShape(d: Dict, k: string, v: real)
    ensures Keys(Put(d, k, v)) == Keys(d) + {k}
    ensures k !in Keys(d) ==> Put(d, k, v) == d + [Slot(k, v)]
    ensures |Put(d, k, v)| == if k in Keys(d) then |d| else |d| + 1
  {
    if |d| > 0 && d[0].key != k {
      PutShape(d[1..], k, v);
      KeysSplit(d);
      assert d == [d[0]] + d[1..];
      var r := Put(d, k, v);
      assert r[1..] == Put(d[1..], k, v);
      KeysSplit(r);
    }
  }

  /** Assignment rewrites only the slot holding the key, where it stands;
      every other slot keeps its place and contents. */
  lemma {:induction false} PutInPlace(d: Dict, k: string, v: real)
    requires DistinctKeys(d)
    ensures |Put(d, k, v)| >= |d|
    ensures forall i :: 0 <= i < |d| ==> Put(d, k, v)[i] == (if d[i].key == k then Slot(k, v) else d[i])
  {
    if |d| > 0 {
      var r := Put(d, k, v);
      if d[0].key == k {
        forall i | 0 < i < |d|
          ensures r[i] == d[i] && d[i].key != k
        {
        }
      } else {
        PutInPlace(d[1..], k, v);
        forall i | 0 < i < |d|
          ensures r[i] == (if d[i].key == k then Slot(k, v) else d[i])
        {
          assert r[i] == Put(d[1..], k, v)[i - 1];
          assert d[1..][i - 1] == d[i];
        }
      }
    }
  }

  lemma KeysSplit(d: Dict)
    requires |d| > 0
    ensures Keys(d) == {d[0].key} + Keys(d[1..])
  {
    assert d == [d[0]] + d[1..];
    forall k | k in Keys(d)
      ensures k in {d[0].key} + Keys(d[1..])
    {
      var s :| s in d && s.key == k;
      if s != d[0] {
        assert s in d[1..];
      }
    }
  }

  /** Lookup after assignment: the assigned key reads back the new value and
      every other key reads back what it did before. */
  lemma {:induction false} GetPut(d: Dict, k: string, v: real, other: string)
    requires other == k || other in Keys(d)
    ensures other in Keys(Put(d, k, v))
    ensures Get(Put(d, k, v), other) == if other == k then v else Get(d, other)
  {
    PutShape(d, k, v);
    if |d| > 0 && d[0].key != k {
      KeysSplit(d);
      if other != d[0].key {
        GetPut(d[1..], k, v, other);
      }
    }
  }

  /** Assignment never makes a key occupy two slots. */
  lemma {:induction false} PutKeepsDistinct(d: Dict, k: string, v: real)
    requires DistinctKeys(d)
    ensures DistinctKeys(Put(d, k, v))
  {
    if |d| > 0 && d[0].key != k {
      PutKeepsDistinct(d[1..], k, v);
      PutShape(d[1..], k, v);
      var r := Put(d, k, v);
      var tail := Put(d[1..], k, v);
      assert r == [d[0]] + tail;
      KeysSplit(d);
      forall j | 0 < j < |r|
        ensures r[j].key != d[0].key
      {
        assert r[j] == tail[j - 1];
        assert r[j].key in Keys(tail);
        HeadKeyNotInTail(d);
      }
    }
  }

  lemma HeadKeyNotInTail(d: Dict)
    requires DistinctKeys(d) && |d| > 0
    ensures d[0].key !in Keys(d[1..])
  {
    forall s | s in d[1..]
      ensures s.key != d[0].key
    {
      var i :| 0 <= i < |d[1..]| && d[1..][i] == s;
      assert d[i + 1] == s;
    }
  }

  function ValuesSum(d: Dict): real
  {
    if |d| == 0 then 0.0 else d[0].value + ValuesSum(d[1..])
  }

  /** Assignment changes the sum of the values by the change at the key. */
  lemma {:induction false} ValuesSumPut(d: Dict, k: string, v: real)
    requires DistinctKeys(d)
    ensures ValuesSum(Put(d, k, v))
            == ValuesSum(d) + v - (if k in Keys(d) then Get(d, k) else 0.0)
  {
    if |d| > 0 {
      KeysSplit(d);
      if d[0].key != k {
        ValuesSumPut(d[1..], k, v);
        PutShape(d[1..], k, v);
        assert Put(d, k, v)[1..] == Put(d[1..], k, v);
      } else {
        assert Put(d, k, v)[1..] == d[1..];
      }
    }
  }
}

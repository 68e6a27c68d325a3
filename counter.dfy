/** The frequency dictionary (`Compteur`): a dictionary from keys to numbers
    of occurrences, updated in place. Python dictionaries remember the order
    in which keys were first inserted, so the model keeps that order beside
    the mapping. */
module Counters {
  import opened Common

  /** No element occurs twice. */
  predicate Distinct<K(==)>(s: seq<K>)
  {
    forall i, j :: 0 <= i < j < |s| ==> s[i] != s[j]
  }

  /** The distinct elements of `s`, in the order of their first occurrence:
      the key order of a dictionary built by inserting `s` element by element. */
  function FirstOccurrences<K(==,!new)>(s: seq<K>): (r: seq<K>)
    ensures Distinct(r)
    ensures forall x :: x in r <==> x in s
    ensures |r| <= |s|
  {
    if s == [] then []
    else
      var p := FirstOccurrences(s[..|s| - 1]);
      if s[|s| - 1] in p then p else p + [s[|s| - 1]]
  }

  /** One element more: it joins the first occurrences when it is new. */
  lemma FirstOccurrencesStep<K(!new)>(s: seq<K>, i: nat)
    requires i < |s|
    ensures forall x :: x in s[..i + 1] <==> x in s[..i] || x == s[i]
    ensures FirstOccurrences(s[..i + 1]) ==
            if s[i] in s[..i] then FirstOccurrences(s[..i]) else FirstOccurrences(s[..i]) + [s[i]]
  {
    assert s[..i + 1] == s[..i] + [s[i]];
  }

  /** The elements of `s` whose count in `m` is `v`, in the order of `s`
      (the comprehension of `_elements_condition`). */
  function KeysWithCount<K(==,!new)>(s: seq<K>, m: map<K, int>, v: int): (r: seq<K>)
    requires forall k :: k in s ==> k in m
    ensures forall k :: k in r <==> k in s && m[k] == v
    ensures Distinct(s) ==> Distinct(r)
    ensures |r| <= |s|
  {
    if s == [] then []
    else
      var p := KeysWithCount(s[..|s| - 1], m, v);
      var k := s[|s| - 1];
      if m[k] == v then p + [k] else p
  }

  /** The counts of the keys of `s`, in the order of `s` (`values()`). */
  function CountsOf<K>(s: seq<K>, m: map<K, int>): (r: seq<int>)
    requires forall k :: k in s ==> k in m
    ensures |r| == |s|
    ensures forall i :: 0 <= i < |s| ==> r[i] == m[s[i]]
  {
    if s == [] then [] else CountsOf(s[..|s| - 1], m) + [m[s[|s| - 1]]]
  }

  /** `min` of a non-empty sequence of counts. */
  function Min(s: seq<int>): (r: int)
    requires s != []
    ensures exists i :: 0 <= i < |s| && s[i] == r
    ensures forall i :: 0 <= i < |s| ==> r <= s[i]
  {
    if |s| == 1 then s[0]
    else
      var m := Min(s[1..]);
      if s[0] < m then s[0] else m
  }

  /** `max` of a non-empty sequence of counts. */
  function Max(s: seq<int>): (r: int)
    requires s != []
    ensures exists i :: 0 <= i < |s| && s[i] == r
    ensures forall i :: 0 <= i < |s| ==> s[i] <= r
  {
    if |s| == 1 then s[0]
    else
      var m := Max(s[1..]);
      if s[0] > m then s[0] else m
  }

  /** The pairs of `elements_par_nb_occurrences` for the counts `vs`. */
  function Groups<K(==,!new)>(vs: seq<int>, s: seq<K>, m: map<K, int>): (r: seq<(int, seq<K>)>)
    requires forall k :: k in s ==> k in m
    ensures |r| == |vs|
    ensures forall i :: 0 <= i < |vs| ==> r[i] == (vs[i], KeysWithCount(s, m, vs[i]))
  {
    if vs == [] then [] else Groups(vs[..|vs| - 1], s, m) + [(vs[|vs| - 1], KeysWithCount(s, m, vs[|vs| - 1]))]
  }

  /** `Compteur`: `keys` lists the dictionary's keys in insertion order and
      `counts` maps each of them to its number of occurrences. */
  class Counter<K(==,!new)> {
    var keys: seq<K>
    var counts: map<K, int>

    ghost predicate Valid()
      reads this
    {
      Distinct(keys) && (forall k :: k in counts <==> k in keys)
    }

    /** `Compteur(val_init)`: every distinct element of the initial sequence
        gets the count 1, however often it occurs; without a sequence (or with
        an empty one) the counter is empty. */
    constructor (init: seq<K>)
      ensures Valid()
      ensures keys == FirstOccurrences(init)
      ensures forall k :: k in counts <==> k in init
      ensures forall k :: k in counts ==> counts[k] == 1
    {
      keys := [];
      counts := map[];
      new;
      for i := 0 to |init|
        invariant Valid()
        invariant keys == FirstOccurrences(init[..i])
        invariant forall k :: k in counts <==> k in init[..i]
        invariant forall k :: k in counts ==> counts[k] == 1
      {
        FirstOccurrencesStep(init, i);
        Set(init[i], 1);
      }
      assert init[..|init|] == init;
    }

    /** `nb_occurences`: the stored count of a present key, 0 for an absent one. */
    function Count(e: K): (r: int)
      reads this
      ensures e in counts ==> r == counts[e]
      ensures e !in counts ==> r == 0
    {
      if e in counts then counts[e] else 0
    }

    /** `fixer`: sets the count of one key; a new key goes last in the key order. */
    method Set(e: K, v: int)
      requires Valid()
      modifies this
      ensures Valid()
      ensures counts == old(counts)[e := v]
      ensures keys == if e in old(counts) then old(keys) else old(keys) + [e]
    {
      if e !in counts {
        keys := keys + [e];
      }
      counts := counts[e := v];
    }

    /** `incrementer`: raises the count of one key by one, inserting it with
        the count 1 when it is absent; no other key changes. */
    method Increment(e: K)
      requires Valid()
      modifies this
      ensures Valid()
      ensures counts == old(counts)[e := old(Count(e)) + 1]
      ensures keys == if e in old(counts) then old(keys) else old(keys) + [e]
    {
      if e in counts {
        counts := counts[e := counts[e] + 1];
      } else {
        Set(e, 1);
      }
    }

    /** `elements`: every key exactly once, in insertion order. */
    function Elements(): (r: seq<K>)
      reads this
      requires Valid()
      ensures r == keys
      ensures Distinct(r)
      ensures forall k :: k in r <==> k in counts
      ensures |r| == |counts|
    {
      CardinalityOfKeys();
      keys
    }

    lemma CardinalityOfKeys()
      requires Valid()
      ensures |keys| == |counts|
    {
      DistinctCardinality(keys);
      assert counts.Keys == set k | k in keys;
    }

    /** `_elements_condition`: the keys whose count is `v`, in key order. */
    function ElementsWithCount(v: int): (r: seq<K>)
      reads this
      requires Valid()
      ensures Distinct(r)
      ensures forall k :: k in r <==> k in counts && counts[k] == v
    {
      KeysWithCount(keys, counts, v)
    }

    /** `elements_moins_frequents`: exactly the keys of minimum count; `min`
        of an empty dictionary's values raises. */
    function LeastFrequent(): (r: Result<seq<K>>)
      reads this
      requires Valid()
      ensures r.Err? <==> |counts| == 0
      ensures r.Err? ==> r.error == EmptySequence
      ensures r.Ok? ==> r.value != [] && Distinct(r.value)
      ensures r.Ok? ==> forall k :: k in r.value <==>
                k in counts && forall j :: j in counts ==> counts[k] <= counts[j]
    {
      if keys == [] then Err(EmptySequence)
      else
        var least := Min(CountsOf(keys, counts));
        ExtremeCount(least, true);
        Ok(ElementsWithCount(least))
    }

    /** `elements_plus_frequents`: exactly the keys of maximum count; `max`
        of an empty dictionary's values raises. */
    function MostFrequent(): (r: Result<seq<K>>)
      reads this
      requires Valid()
      ensures r.Err? <==> |counts| == 0
      ensures r.Err? ==> r.error == EmptySequence
      ensures r.Ok? ==> r.value != [] && Distinct(r.value)
      ensures r.Ok? ==> forall k :: k in r.value <==>
                k in counts && forall j :: j in counts ==> counts[j] <= counts[k]
    {
      if keys == [] then Err(EmptySequence)
      else
        var most := Max(CountsOf(keys, counts));
        ExtremeCount(most, false);
        Ok(ElementsWithCount(most))
    }

    /** The minimum (`least`) or maximum of the counts is the count of some
        key, so the keys having it are those of extreme count. */
    lemma ExtremeCount(v: int, least: bool)
      requires Valid() && keys != []
      requires least ==> v == Min(CountsOf(keys, counts))
      requires !least ==> v == Max(CountsOf(keys, counts))
      ensures ElementsWithCount(v) != []
      ensures least ==> forall k :: k in ElementsWithCount(v) <==>
                k in counts && forall j :: j in counts ==> counts[k] <= counts[j]
      ensures !least ==> forall k :: k in ElementsWithCount(v) <==>
                k in counts && forall j :: j in counts ==> counts[j] <= counts[k]
    {
      var values := CountsOf(keys, counts);
      forall j | j in counts
        ensures least ==> v <= counts[j]
        ensures !least ==> counts[j] <= v
      {
        var i :| 0 <= i < |keys| && keys[i] == j;
        assert values[i] == counts[j];
      }
      var i :| 0 <= i < |values| && values[i] == v;
      assert keys[i] in ElementsWithCount(v);
    }

    /** `elements_par_nb_occurrences`: one pair per distinct count, pairing the
        count with the keys that have it, so that every key appears in the
        group of its own count and in no other. */
    function GroupsByCount(): (r: seq<(int, seq<K>)>)
      reads this
      requires Valid()
      ensures forall i, j :: 0 <= i < j < |r| ==> r[i].0 != r[j].0
      ensures forall v :: v in counts.Values <==> exists i :: 0 <= i < |r| && r[i].0 == v
      ensures forall i, k :: 0 <= i < |r| ==> (k in r[i].1 <==> k in counts && counts[k] == r[i].0)
    {
      var values := FirstOccurrences(CountsOf(keys, counts));
      CountValues(keys, counts);
      Groups(values, keys, counts)
    }
  }

  /** The counts of a sequence of keys covering a dictionary are exactly the
      dictionary's values. */
  lemma CountValues<K>(s: seq<K>, m: map<K, int>)
    requires forall k :: k in m <==> k in s
    ensures forall v :: v in m.Values <==> v in CountsOf(s, m)
  {
    forall v ensures v in m.Values <==> v in CountsOf(s, m) {
      if v in m.Values {
        var k :| k in m && m[k] == v;
        var i :| 0 <= i < |s| && s[i] == k;
        assert CountsOf(s, m)[i] == v;
      }
      if v in CountsOf(s, m) {
        var i :| 0 <= i < |s| && CountsOf(s, m)[i] == v;
        assert m[s[i]] == v;
      }
    }
  }

  /** A sequence without repetitions has as many elements as its set. */
  lemma {:induction false} DistinctCardinality<K>(s: seq<K>)
    requires Distinct(s)
    ensures |set k | k in s| == |s|
  {
    if s != [] {
      var t := s[..|s| - 1];
      DistinctCardinality(t);
      assert (set k | k in s) == (set k | k in t) + {s[|s| - 1]};
      assert s[|s| - 1] !in t;
    }
  }
}

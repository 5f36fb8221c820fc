/** The fixed-capacity letter-to-value dictionary that carries a command's
    parameters to its callback: parallel key and value arrays and a count. */
module Dictionaries {
  import opened Options
  import Config

  // ---------------------------------------------------------------------
  // The contents as sequences

  /** The index of the first occurrence of `key`. */
  function IndexOf(ks: seq<char>, key: char): (r: Option<nat>)
    ensures r.None? <==> key !in ks
    ensures r.Some? ==> r.value < |ks| && ks[r.value] == key && key !in ks[..r.value]
  {
    if ks == [] then None
    else if ks[0] == key then Some(0)
    else match IndexOf(ks[1..], key)
      case None => None
      case Some(i) =>
        assert ks[..i + 1] == [ks[0]] + ks[1..][..i];
        Some(i + 1)
  }

  /** The value paired with the first occurrence of `key`. */
  function Lookup<V>(ks: seq<char>, vs: seq<V>, key: char): (r: Option<V>)
    requires |ks| == |vs|
  {
    match IndexOf(ks, key)
    case None => None
    case Some(i) => Some(vs[i])
  }

  /** The key/value pairs, in order. */
  function Pairs<V>(ks: seq<char>, vs: seq<V>): (ps: seq<(char, V)>)
    requires |ks| == |vs|
    ensures |ps| == |ks|
    ensures forall i :: 0 <= i < |ks| ==> ps[i] == (ks[i], vs[i])
  {
    seq(|ks|, i requires 0 <= i < |ks| => (ks[i], vs[i]))
  }

  /** Removal by moving the last element into slot `i`. */
  function SwapRemove<T>(s: seq<T>, i: nat): (r: seq<T>)
    requires i < |s|
    ensures |r| == |s| - 1
  {
    s[i := s[|s| - 1]][..|s| - 1]
  }

  /** Removal at an index if there is one; nothing changes otherwise. */
  function RemoveAt<T>(s: seq<T>, at: Option<nat>): (r: seq<T>)
    requires at.Some? ==> at.value < |s|
  {
    if at.Some? then SwapRemove(s, at.value) else s
  }

  /** No key occurs twice. */
  predicate Distinct(ks: seq<char>) {
    forall i, j :: 0 <= i < j < |ks| ==> ks[i] != ks[j]
  }

  // ---------------------------------------------------------------------
  // The dictionary object

  class Dictionary<V(0)> {
    const keys: array<char>
    const values: array<V>
    var count: nat

    ghost predicate Valid()
      reads this
    {
      keys as object != values as object &&
      keys.Length == Config.MaxNumOfParams && values.Length == Config.MaxNumOfParams &&
      count <= Config.MaxNumOfParams
    }

    /** The keys in use. */
    function Keys(): seq<char>
      requires Valid()
      reads this, keys
    {
      keys[..count]
    }

    /** The values in use, in the order of their keys. */
    function Values(): (vs: seq<V>)
      requires Valid()
      reads this, values
      ensures |vs| == |Keys()|
    {
      values[..count]
    }

    constructor ()
      ensures Valid() && Keys() == [] && Values() == []
      ensures fresh(keys) && fresh(values)
    {
      keys := new char[Config.MaxNumOfParams];
      values := new V[Config.MaxNumOfParams];
      count := 0;
    }

    /** Dictionary_Add: writes the pair at the end; the pairs already there
        stay as they are. */
    method Add(key: char, value: V)
      requires Valid() && count < Config.MaxNumOfParams
      modifies this, keys, values
      ensures Valid()
      ensures Keys() == old(Keys()) + [key]
      ensures Values() == old(Values()) + [value]
    {
      keys[count] := key;
      values[count] := value;
      count := count + 1;
    }

    /** Dictionary_Remove: the first pair with this key is overwritten by the
        last pair and the count drops by one; an absent key changes nothing. */
    method Remove(key: char)
      requires Valid()
      modifies this, keys, values
      ensures Valid()
      ensures Keys() == RemoveAt(old(Keys()), IndexOf(old(Keys()), key))
      ensures Values() == RemoveAt(old(Values()), IndexOf(old(Keys()), key))
    {
      ghost var ks, vs := Keys(), Values();
      var i := 0;
      while i < count
        invariant i <= count
        invariant key !in keys[..i]
      {
        if keys[i] == key {
          assert IndexOf(ks, key) == Some(i);
          var last := count - 1;
          keys[i] := keys[last];
          values[i] := values[last];
          count := last;
          assert keys[..count] == SwapRemove(ks, i);
          assert values[..count] == SwapRemove(vs, i);
          return;
        }
        i := i + 1;
      }
      assert keys[..i] == ks;
    }

    /** Dictionary_Clear: no pairs remain. */
    method Clear()
      requires Valid()
      modifies this
      ensures Valid() && Keys() == [] && Values() == []
    {
      count := 0;
    }

    /** Dictionary_DoesExist: whether some pair has this key. */
    method DoesExist(key: char) returns (b: bool)
      requires Valid()
      ensures b <==> key in Keys()
    {
      var i := 0;
      while i < count
        invariant i <= count
        invariant key !in keys[..i]
      {
        if keys[i] == key {
          return true;
        }
        i := i + 1;
      }
      assert keys[..i] == Keys();
      return false;
    }

    /** Dictionary_Get: the value of the first pair with this key, or None
        (the source's NULL). */
    method Get(key: char) returns (r: Option<V>)
      requires Valid()
      ensures r.Some? <==> key in Keys()
      ensures r.Some? ==> exists i :: 0 <= i < |Keys()| && Keys()[i] == key && r.value == Values()[i]
      ensures r == Lookup(Keys(), Values(), key)
    {
      var i := 0;
      while i < count
        invariant i <= count
        invariant key !in keys[..i]
      {
        if keys[i] == key {
          assert IndexOf(Keys(), key) == Some(i);
          return Some(values[i]);
        }
        i := i + 1;
      }
      assert keys[..i] == Keys();
      return None;
    }
  }

  // ---------------------------------------------------------------------
  // Properties of the contents

  /** Get finds a value exactly when DoesExist is true. */
  lemma LookupSomeIff<V>(ks: seq<char>, vs: seq<V>, key: char)
    requires |ks| == |vs|
    ensures Lookup(ks, vs, key).Some? <==> key in ks
  {
  }

  /** After adding a key that was absent, Get of that key gives the value
      just added; Get of any other key is as before. */
  lemma LookupAfterAdd<V>(ks: seq<char>, vs: seq<V>, key: char, value: V, other: char)
    requires |ks| == |vs|
    ensures key !in ks ==> Lookup(ks + [key], vs + [value], key) == Some(value)
    ensures key in ks ==> Lookup(ks + [key], vs + [value], key) == Lookup(ks, vs, key)
    ensures other != key ==> Lookup(ks + [key], vs + [value], other) == Lookup(ks, vs, other)
  {
    IndexOfSnoc(ks, key, key);
    IndexOfSnoc(ks, key, other);
  }

  lemma {:induction false} IndexOfSnoc(ks: seq<char>, c: char, key: char)
    ensures IndexOf(ks + [c], key) ==
      if key in ks then IndexOf(ks, key) else if c == key then Some(|ks|) else None
  {
    if ks != [] {
      assert (ks + [c])[1..] == ks[1..] + [c];
      IndexOfSnoc(ks[1..], c, key);
    }
  }

  /** Removal by swapping keeps every other pair: the pairs after are the
      pairs before, less the removed one, as a multiset. */
  lemma RemoveKeepsPairs<V>(ks: seq<char>, vs: seq<V>, i: nat)
    requires |ks| == |vs| && i < |ks|
    ensures Pairs(SwapRemove(ks, i), SwapRemove(vs, i)) == SwapRemove(Pairs(ks, vs), i)
    ensures multiset(Pairs(SwapRemove(ks, i), SwapRemove(vs, i))) ==
      multiset(Pairs(ks, vs)) - multiset{(ks[i], vs[i])}
  {
    var ps := Pairs(ks, vs);
    var last := |ps| - 1;
    SwapRemoveMultiset(ps, i);
  }

  lemma SwapRemoveMultiset<T>(s: seq<T>, i: nat)
    requires i < |s|
    ensures multiset(SwapRemove(s, i)) == multiset(s) - multiset{s[i]}
  {
    var n := |s| - 1;
    if i == n {
      assert s == SwapRemove(s, i) + [s[i]];
    } else {
      assert s == s[..i] + [s[i]] + s[i + 1..n] + [s[n]];
      assert SwapRemove(s, i) == s[..i] + [s[n]] + s[i + 1..n];
    }
  }

  /** With distinct keys, removing a key makes Get of it give None and
      leaves Get of every other key as it was. */
  lemma LookupAfterRemove<V>(ks: seq<char>, vs: seq<V>, key: char, other: char)
    requires |ks| == |vs| && Distinct(ks) && key in ks
    ensures var i := IndexOf(ks, key).value;
      Lookup(SwapRemove(ks, i), SwapRemove(vs, i), key) == None &&
      (other != key ==> Lookup(SwapRemove(ks, i), SwapRemove(vs, i), other) == Lookup(ks, vs, other))
  {
    var i := IndexOf(ks, key).value;
    var ks', vs' := SwapRemove(ks, i), SwapRemove(vs, i);
    var n := |ks| - 1;
    assert key !in ks' by {
      forall j | 0 <= j < |ks'|
        ensures ks'[j] != key
      {
        if j == i {
          assert ks'[j] == ks[n];
        } else {
          assert ks'[j] == ks[j];
        }
      }
    }
    if other != key && other in ks {
      var k := IndexOf(ks, other).value;
      var k' := if k == n then i else k;
      assert ks'[k'] == other && vs'[k'] == vs[k];
      assert IndexOf(ks', other) == Some(k');
    }
  }
}

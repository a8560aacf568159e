/**
 * The recorder's string table: an append-only list in first-seen order,
 * whose positions are the ordinals written into records in place of strings.
 */
module Interner {
  import opened Osc

  predicate Distinct(t: seq<string>)
  {
    forall i, j :: 0 <= i < j < |t| ==> t[i] != t[j]
  }

  /** List<string>.IndexOf: the first position holding `s`, or -1 when there is none. */
  function IndexOf(t: seq<string>, s: string): (r: int)
    ensures -1 <= r < |t|
    ensures r == -1 <==> s !in t
    ensures r >= 0 ==> r < |t| && t[r] == s && s !in t[..r]
  {
    if t == [] then -1
    else if t[0] == s then 0
    else
      var r := IndexOf(t[1..], s);
      assert t[1..][..r + 1] == t[1..r + 2];
      if r < 0 then -1 else r + 1
  }

  /** In a table without duplicates, every entry's ordinal is its position. */
  lemma IndexOfDistinct(t: seq<string>, i: int)
    requires Distinct(t) && 0 <= i < |t|
    ensures IndexOf(t, t[i]) == i
  {
    assert t[i] in t;
    assert IndexOf(t, t[i]) <= i by {
      assert t[i] in t[..i + 1];
    }
  }

  /** Appending to the table never changes the ordinal of a string already in it. */
  lemma IndexOfExtend(t: seq<string>, u: seq<string>, s: string)
    requires s in t
    ensures IndexOf(t + u, s) == IndexOf(t, s)
  {
    var r := IndexOf(t, s);
    assert (t + u)[..r] == t[..r];
    assert (t + u)[r] == s;
  }

  /** The table after one value of a message has been seen: a string not yet in it is appended. */
  function InternValue(t: seq<string>, v: Value): seq<string>
  {
    if v.StringValue? && v.s !in t then t + [v.s] else t
  }

  /** The table after every value of `vs`, in order, has been seen. */
  function InternValues(t: seq<string>, vs: seq<Value>): (r: seq<string>)
    ensures |t| <= |r|
    decreases |vs|
  {
    if vs == [] then t
    else InternValue(InternValues(t, vs[..|vs| - 1]), vs[|vs| - 1])
  }

  /** Every string value of the message is in the table. */
  predicate StringsIn(vs: seq<Value>, t: seq<string>)
  {
    forall i :: 0 <= i < |vs| && vs[i].StringValue? ==> vs[i].s in t
  }

  /**
   * Interning only appends, each new string once, so the table stays free of
   * duplicates and holds every string of the message afterwards.
   */
  lemma {:induction false} InternValuesSpec(t: seq<string>, vs: seq<Value>)
    ensures var r := InternValues(t, vs);
      && |t| <= |r| && r[..|t|] == t
      && StringsIn(vs, r)
      && (Distinct(t) ==> Distinct(r))
    decreases |vs|
  {
    if vs != [] {
      var vs' := vs[..|vs| - 1];
      InternValuesSpec(t, vs');
      var m := InternValues(t, vs');
      var r := InternValues(t, vs);
      assert r == InternValue(m, vs[|vs| - 1]);
      assert r[..|t|] == m[..|t|];
      forall i | 0 <= i < |vs| && vs[i].StringValue?
        ensures vs[i].s in r
      {
        if i < |vs| - 1 {
          assert vs'[i] == vs[i];
        }
      }
    }
  }

  /** The strings interning appends are strings of the message: nothing else enters the table. */
  lemma {:induction false} InternValuesOnly(t: seq<string>, vs: seq<Value>)
    ensures forall s :: s in InternValues(t, vs) ==> s in t || exists i :: 0 <= i < |vs| && vs[i] == StringValue(s)
    decreases |vs|
  {
    if vs != [] {
      var vs' := vs[..|vs| - 1];
      InternValuesOnly(t, vs');
      var m := InternValues(t, vs');
      forall s | s in InternValues(t, vs)
        ensures s in t || exists i :: 0 <= i < |vs| && vs[i] == StringValue(s)
      {
        if s in m {
          if s !in t {
            var i :| 0 <= i < |vs'| && vs'[i] == StringValue(s);
            assert vs[i] == StringValue(s);
          }
        } else {
          assert vs[|vs| - 1] == StringValue(s);
        }
      }
    }
  }

  /** Interning only appends to the table. */
  lemma InternValuesPrefix(t: seq<string>, vs: seq<Value>)
    ensures var r := InternValues(t, vs); |t| <= |r| && r == t + r[|t|..]
  {
    InternValuesSpec(t, vs);
    var r := InternValues(t, vs);
    assert r == r[..|t|] + r[|t|..];
  }

  /** A string seen twice is appended once: a table holding it already is left as it is. */
  lemma {:induction false} InternValuesKnown(t: seq<string>, vs: seq<Value>)
    requires StringsIn(vs, t)
    ensures InternValues(t, vs) == t
    decreases |vs|
  {
    if vs != [] {
      var vs' := vs[..|vs| - 1];
      assert StringsIn(vs', t) by {
        forall i | 0 <= i < |vs'| && vs'[i].StringValue? ensures vs'[i].s in t {
          assert vs'[i] == vs[i];
        }
      }
      InternValuesKnown(t, vs');
    }
  }
}

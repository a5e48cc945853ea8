/** The ascending order in which std::map hands out its keys. */
module OrderedKeys {
  import opened Edges

  predicate StrictlyIncreasing(s: seq<Label>)
  {
    forall i, j :: 0 <= i < j < |s| ==> s[i] < s[j]
  }

  /** Every set is empty or has a member (the form a `:|` choice needs). */
  lemma EmptyOrMember(s: set<Label>)
    ensures s == {} || exists m :: m in s
  {
    if forall m :: m !in s {
      assert s == {};
    }
  }

  lemma {:induction false} LeastExists(s: set<Label>)
    requires s != {}
    ensures exists m :: m in s && forall y :: y in s ==> m <= y
    decreases s
  {
    EmptyOrMember(s);
    var x :| x in s;
    if s != {x} {
      LeastExists(s - {x});
      var m :| m in s - {x} && forall y :: y in s - {x} ==> m <= y;
      var least := if x < m then x else m;
      forall y | y in s ensures least <= y {
        if y != x { assert y in s - {x}; }
      }
    } else {
      assert forall y :: y in s ==> x <= y;
    }
  }

  /** The smallest label of a non-empty set. */
  function Least(s: set<Label>): (m: Label)
    requires s != {}
    ensures m in s && forall y :: y in s ==> m <= y
  {
    LeastExists(s);
    var m :| m in s && forall y :: y in s ==> m <= y; m
  }

  /** The keys of a map in the order a std::map iterates them: ascending,
      each exactly once. */
  function SortedKeys(s: set<Label>): (r: seq<Label>)
    ensures |r| == |s|
    ensures forall x :: x in r <==> x in s
    ensures StrictlyIncreasing(r)
    decreases |s|
  {
    if s == {} then []
    else
      var m := Least(s);
      [m] + SortedKeys(s - {m})
  }

  /** Where std::map::find leaves its iterator: the position of a key in the
      ascending key order. */
  function IndexOf(keys: seq<Label>, x: Label): (i: nat)
    requires x in keys
    ensures i < |keys| && keys[i] == x
  {
    if keys[0] == x then 0 else 1 + IndexOf(keys[1..], x)
  }

  /** The first i + 1 elements are the first i and element i. */
  lemma PrefixGrows(ns: seq<Label>, i: nat)
    requires i < |ns|
    ensures forall t :: t in ns[..i + 1] <==> t in ns[..i] || t == ns[i]
  {
    assert ns[..i + 1] == ns[..i] + [ns[i]];
  }

  lemma PrefixFull(ns: seq<Label>)
    ensures forall t :: t in ns[..|ns|] <==> t in ns
  {
    assert ns[..|ns|] == ns;
  }
}

/** Small shared vocabulary: optional values and the least element of a key set. */
module Basics {

  datatype Option<+T> = None | Some(value: T) {
    function Or(default: T): T {
      if Some? then value else default
    }
  }

  const U64_MAX: nat := 0xFFFF_FFFF_FFFF_FFFF

  /** A saturating subtraction on unsigned words. */
  function SatSub(a: nat, b: nat): nat {
    if a < b then 0 else a - b
  }

  function Min(a: nat, b: nat): nat {
    if a < b then a else b
  }

  function Max(a: nat, b: nat): nat {
    if a < b then b else a
  }

  ghost predicate IsLeast(s: set<nat>, m: nat) {
    m in s && forall k :: k in s ==> m <= k
  }

  /** A non-empty set of keys has a least one, so an ordered walk can always continue. */
  lemma {:induction false} LeastExists(s: set<nat>)
    requires s != {}
    ensures exists m :: IsLeast(s, m)
  {
    var k :| k in s;
    if s == {k} {
      assert IsLeast(s, k);
    } else {
      LeastExists(s - {k});
      var m :| IsLeast(s - {k}, m);
      forall j | j in s ensures Min(k, m) <= j { if j != k { assert j in s - {k}; } }
      assert IsLeast(s, Min(k, m));
    }
  }

  ghost predicate IsGreatest(s: set<nat>, m: nat) {
    m in s && forall k :: k in s ==> k <= m
  }

  lemma {:induction false} GreatestExists(s: set<nat>)
    requires s != {}
    ensures exists m :: IsGreatest(s, m)
  {
    var k :| k in s;
    if s == {k} {
      assert IsGreatest(s, k);
    } else {
      GreatestExists(s - {k});
      var m :| IsGreatest(s - {k}, m);
      forall j | j in s ensures j <= Max(k, m) { if j != k { assert j in s - {k}; } }
      assert IsGreatest(s, Max(k, m));
    }
  }
}

module Sets {

  lemma {:induction false} LeastFrom(s: set<nat>, y: nat)
    requires y in s
    ensures exists m :: m in s && forall x | x in s :: m <= x
    decreases y
  {
    if z :| z in s && z < y {
      LeastFrom(s, z);
    }
  }

  ghost function Least(s: set<nat>): (m: nat)
    requires s != {}
    ensures m in s && forall x | x in s :: m <= x
  {
    var y: nat :| y in s;
    LeastFrom(s, y);
    var m: nat :| m in s && forall x | x in s :: m <= x;
    m
  }
}

/** The elements of a set of ids in ascending order, as a std::map or std::set
    is iterated over. */
module SortedIds {

  lemma {:induction false} LeastOf(s: set<int>) returns (m: int)
    requires s != {}
    ensures m in s && forall x :: x in s ==> m <= x
    decreases |s|
  {
    assert (forall x :: x !in s) ==> s == {};
    m :| m in s;
    var others := s - {m};
    if others != {} {
      var n := LeastOf(others);
      assert forall x :: x in s ==> x == m || x in others;
      m := if n < m then n else m;
    } else {
      assert forall x :: x in s && x != m ==> x in others;
    }
  }

  lemma LeastExists(s: set<int>)
    requires s != {}
    ensures exists m :: m in s && forall x :: x in s ==> m <= x
  {
    var m := LeastOf(s);
  }

  function Least(s: set<int>): (m: int)
    requires s != {}
    ensures m in s && forall x :: x in s ==> m <= x
  {
    LeastExists(s);
    var m :| m in s && forall x :: x in s ==> m <= x;
    m
  }

  ghost predicate Increasing(ids: seq<int>) {
    forall i, j :: 0 <= i < j < |ids| ==> ids[i] < ids[j]
  }

  function Ascending(s: set<int>): (ids: seq<int>)
    ensures Increasing(ids)
    ensures forall x :: x in ids <==> x in s
    decreases |s|
  {
    if s == {} then [] else [Least(s)] + Ascending(s - {Least(s)})
  }
}

/**
 * The frontier discipline of the search: the frontier is kept in ascending
 * order of f-score by a stable sort, and a child joins it only when no
 * explored state has the same board.
 */
module Frontier {

  import opened Grid
  import opened PuzzleNode

  predicate SortedByF(s: seq<Node>) {
    forall i, j :: 0 <= i < j < |s| ==> s[i].f <= s[j].f
  }

  /** Places x before the first element whose f-score is not below its own. */
  function InsertByF(x: Node, s: seq<Node>): (r: seq<Node>)
    ensures |r| == |s| + 1 && (r[0] == x || (s != [] && r[0] == s[0]))
  {
    if s == [] || x.f <= s[0].f then [x] + s
    else [s[0]] + InsertByF(x, s[1..])
  }

  /** Inserting adds x and nothing else. */
  lemma {:induction false} InsertByFPermutes(x: Node, s: seq<Node>)
    ensures multiset(InsertByF(x, s)) == multiset(s) + multiset{x}
  {
    if s != [] && x.f > s[0].f {
      InsertByFPermutes(x, s[1..]);
      assert s == [s[0]] + s[1..];
    }
  }

  /** Inserting into a sorted frontier keeps it sorted. */
  lemma {:induction false} InsertByFSorted(x: Node, s: seq<Node>)
    requires SortedByF(s)
    ensures SortedByF(InsertByF(x, s))
  {
    if s != [] && x.f > s[0].f {
      var t := InsertByF(x, s[1..]);
      InsertByFSorted(x, s[1..]);
      assert s[0].f <= t[0].f;
      var r := [s[0]] + t;
      forall i, j | 0 <= i < j < |r|
        ensures r[i].f <= r[j].f
      {
        if i == 0 {
          assert r[j] == t[j - 1];
        } else {
          assert r[i] == t[i - 1] && r[j] == t[j - 1];
        }
      }
    }
  }

  /**
   * The frontier after `sort(key = f_score)`: ascending by f-score and a
   * permutation of its input.
   */
  function SortByF(s: seq<Node>): (r: seq<Node>)
    ensures SortedByF(r)
    ensures multiset(r) == multiset(s)
  {
    if s == [] then []
    else
      var t := SortByF(s[1..]);
      InsertByFSorted(s[0], t);
      InsertByFPermutes(s[0], t);
      assert s == [s[0]] + s[1..];
      InsertByF(s[0], t)
  }

  /** The elements of s whose f-score is v, in the order of s. */
  function WithF(s: seq<Node>, v: int): seq<Node> {
    if s == [] then []
    else (if s[0].f == v then [s[0]] else []) + WithF(s[1..], v)
  }

  /** Inserting x puts it in front of every element with the same f-score. */
  lemma {:induction false} InsertByFKeepsTies(x: Node, s: seq<Node>, v: int)
    ensures WithF(InsertByF(x, s), v) == (if x.f == v then [x] else []) + WithF(s, v)
  {
    if s == [] || x.f <= s[0].f {
      assert ([x] + s)[1..] == s;
    } else {
      var r := [s[0]] + InsertByF(x, s[1..]);
      assert r[1..] == InsertByF(x, s[1..]);
      InsertByFKeepsTies(x, s[1..], v);
    }
  }

  /** The sort is stable: states with equal f-scores keep their relative order. */
  lemma {:induction false} SortByFStable(s: seq<Node>, v: int)
    ensures WithF(SortByF(s), v) == WithF(s, v)
  {
    if s != [] {
      InsertByFKeepsTies(s[0], SortByF(s[1..]), v);
      SortByFStable(s[1..], v);
    }
  }

  /** `x in explored`: some explored state has the same board as x. */
  function InExplored(explored: seq<Node>, x: Node): (r: bool)
    requires Is3x3(x.data)
    requires forall e :: e in explored ==> Is3x3(e.data)
    ensures r <==> exists j :: 0 <= j < |explored| && explored[j].data == x.data
  {
    if explored == [] then false
    else if Equals(explored[0], OfNode(x)) then true
    else
      var r := InExplored(explored[1..], x);
      assert forall j :: 1 <= j < |explored| ==> explored[j] == explored[1..][j - 1];
      r
  }

  /** The first n children, in order, whose boards no explored state has. */
  function Admitted(children: seq<Node>, explored: seq<Node>, n: nat): (r: seq<Node>)
    requires n <= |children|
    requires forall c :: c in children ==> Is3x3(c.data)
    requires forall e :: e in explored ==> Is3x3(e.data)
  {
    if n == 0 then []
    else
      Admitted(children, explored, n - 1) +
      (if InExplored(explored, children[n - 1]) then [] else [children[n - 1]])
  }

  /** Admitting child n - 1 appends it after the frontier built so far, or leaves it out. */
  lemma AdmittedStep(front: seq<Node>, children: seq<Node>, explored: seq<Node>, n: nat)
    requires 0 < n <= |children|
    requires forall c :: c in children ==> Is3x3(c.data)
    requires forall e :: e in explored ==> Is3x3(e.data)
    ensures front + Admitted(children, explored, n) ==
            (front + Admitted(children, explored, n - 1)) +
            (if InExplored(explored, children[n - 1]) then [] else [children[n - 1]])
  {
  }

  /**
   * A child is admitted exactly when it is one of the first n children and
   * no explored state has its board.
   */
  lemma {:induction false} AdmittedFacts(children: seq<Node>, explored: seq<Node>, n: nat)
    requires n <= |children|
    requires forall c :: c in children ==> Is3x3(c.data)
    requires forall e :: e in explored ==> Is3x3(e.data)
    ensures |Admitted(children, explored, n)| <= n
    ensures forall x :: x in Admitted(children, explored, n) <==>
              (exists i :: 0 <= i < n && children[i] == x) &&
              forall j :: 0 <= j < |explored| ==> explored[j].data != x.data
  {
    if n > 0 {
      AdmittedFacts(children, explored, n - 1);
    }
  }


}

/** The shrinking list of empty slots: which arrangements a sequence of picks produces, and how many
    there are. */
module Shuffle {
  import opened Finite

  function RemoveAt<T>(s: seq<T>, k: nat): (r: seq<T>)
    requires k < |s|
    ensures |r| == |s| - 1
  {
    s[..k] + s[k + 1..]
  }

  /** Every pick falls inside the list of slots that are left when it is made. */
  ghost predicate ValidPicks(picks: seq<nat>, n: nat) {
    |picks| <= n && forall i :: 0 <= i < |picks| ==> picks[i] < n - i
  }

  /** The slots in the order in which the picks take them out of the list. */
  function Take<T>(slots: seq<T>, picks: seq<nat>): (r: seq<T>)
    requires ValidPicks(picks, |slots|)
    ensures |r| == |picks|
    decreases |picks|
  {
    if picks == [] then []
    else [slots[picks[0]]] + Take(RemoveAt(slots, picks[0]), picks[1..])
  }

  /** `arr` selects elements of `slots`, each at most once. */
  ghost predicate Arranges<T>(slots: seq<T>, arr: seq<T>) {
    Distinct(arr) && forall x :: x in arr ==> x in slots
  }

  function IndexOf<T(==)>(s: seq<T>, x: T): (k: nat)
    requires x in s
    ensures k < |s| && s[k] == x
  {
    if s[0] == x then 0 else 1 + IndexOf(s[1..], x)
  }

  /** The picks that yield an arrangement. */
  function PicksOf<T(==)>(slots: seq<T>, arr: seq<T>): (picks: seq<nat>)
    requires Distinct(slots) && Arranges(slots, arr)
    ensures |picks| == |arr|
    decreases |arr|
  {
    if arr == [] then []
    else
      var k := IndexOf(slots, arr[0]);
      RestArranges(slots, arr, k);
      [k] + PicksOf(RemoveAt(slots, k), arr[1..])
  }

  lemma RemoveAtMembers<T>(s: seq<T>, k: nat)
    requires k < |s| && Distinct(s)
    ensures Distinct(RemoveAt(s, k))
    ensures forall x :: x in RemoveAt(s, k) <==> x in s && x != s[k]
  {
    var r := RemoveAt(s, k);
    forall x | x in s && x != s[k] ensures x in r {
      var i :| 0 <= i < |s| && s[i] == x;
      assert if i < k then r[i] == x else r[i - 1] == x;
    }
  }

  lemma RestArranges<T>(slots: seq<T>, arr: seq<T>, k: nat)
    requires Distinct(slots) && Arranges(slots, arr) && arr != [] && k < |slots| && slots[k] == arr[0]
    ensures Distinct(RemoveAt(slots, k)) && Arranges(RemoveAt(slots, k), arr[1..])
  {
    RemoveAtMembers(slots, k);
  }

  /** Valid picks produce a duplicate-free selection of the slots. */
  lemma {:induction false} TakeArranges<T>(slots: seq<T>, picks: seq<nat>)
    requires Distinct(slots) && ValidPicks(picks, |slots|)
    ensures Arranges(slots, Take(slots, picks))
    decreases |picks|
  {
    if picks != [] {
      RemoveAtMembers(slots, picks[0]);
      var rest := RemoveAt(slots, picks[0]);
      TakeArranges(rest, picks[1..]);
      assert slots[picks[0]] !in Take(rest, picks[1..]);
    }
  }

  /** Every arrangement is produced by its picks. */
  lemma {:induction false} TakePicksOf<T>(slots: seq<T>, arr: seq<T>)
    requires Distinct(slots) && Arranges(slots, arr)
    ensures ValidPicks(PicksOf(slots, arr), |slots|) && Take(slots, PicksOf(slots, arr)) == arr
    decreases |arr|
  {
    if arr != [] {
      var k := IndexOf(slots, arr[0]);
      RestArranges(slots, arr, k);
      TakePicksOf(RemoveAt(slots, k), arr[1..]);
      assert PicksOf(slots, arr)[1..] == PicksOf(RemoveAt(slots, k), arr[1..]);
    }
  }

  /** Different picks produce different arrangements. */
  lemma {:induction false} TakeInjective<T>(slots: seq<T>, p: seq<nat>, q: seq<nat>)
    requires Distinct(slots) && ValidPicks(p, |slots|) && ValidPicks(q, |slots|)
    requires Take(slots, p) == Take(slots, q)
    ensures p == q
    decreases |p|
  {
    if p != [] {
      assert Take(slots, p)[0] == slots[p[0]] && Take(slots, q)[0] == slots[q[0]];
      assert Take(slots, p)[1..] == Take(slots, q)[1..];
      TakeInjective(RemoveAt(slots, p[0]), p[1..], q[1..]);
      RemoveAtMembers(slots, p[0]);
    }
  }

  /** Pick sequences and duplicate-free selections correspond one to one: each selection has exactly one
      pick sequence, which the inverse computes. */
  lemma PicksAreArrangements<T>(slots: seq<T>, picks: seq<nat>, arr: seq<T>)
    requires Distinct(slots)
    ensures ValidPicks(picks, |slots|) && Take(slots, picks) == arr
       <==> Arranges(slots, arr) && picks == PicksOf(slots, arr)
  {
    if ValidPicks(picks, |slots|) && Take(slots, picks) == arr {
      TakeArranges(slots, picks);
      TakePicksOf(slots, arr);
      TakeInjective(slots, picks, PicksOf(slots, arr));
    }
    if Arranges(slots, arr) {
      TakePicksOf(slots, arr);
    }
  }

  // ---------------------------------------------------------------- what a pick means

  ghost predicate Ascending(s: seq<nat>) {
    forall i, j :: 0 <= i < j < |s| ==> s[i] < s[j]
  }

  function Members(s: seq<nat>): set<nat> {
    set y | y in s
  }

  /** The numbers of the list below `x`. */
  function Smaller(s: seq<nat>, x: nat): set<nat> {
    set y | y in s && y < x
  }

  lemma RemoveAtAscending(s: seq<nat>, k: nat)
    requires k < |s| && Ascending(s)
    ensures Ascending(RemoveAt(s, k))
  {
  }

  lemma SmallerSize(s: seq<nat>, k: nat)
    requires k < |s| && Ascending(s)
    ensures |Smaller(s, s[k])| == k
  {
    var front := s[..k];
    MembersSize(front);
    forall y | y in front
      ensures y in Smaller(s, s[k])
    {
      var i :| 0 <= i < k && front[i] == y;
      assert s[i] == y;
    }
    forall y | y in Smaller(s, s[k])
      ensures y in front
    {
      var i :| 0 <= i < |s| && s[i] == y;
      assert i < k && front[i] == y;
    }
    assert Smaller(s, s[k]) == Members(front);
  }

  lemma {:induction false} MembersSize(s: seq<nat>)
    requires Distinct(s)
    ensures |Members(s)| == |s|
    decreases |s|
  {
    if s == [] {
      assert Members(s) == {};
    } else {
      assert s == [s[0]] + s[1..];
      MembersCons(s[0], s[1..]);
      MembersSize(s[1..]);
    }
  }

  lemma MembersCons(x: nat, s: seq<nat>)
    ensures Members([x] + s) == {x} + Members(s)
  {
  }

  lemma SmallerRest(slots: seq<nat>, k: nat, x: nat)
    requires Ascending(slots) && k < |slots|
    ensures Ascending(RemoveAt(slots, k)) && Smaller(RemoveAt(slots, k), x) == Smaller(slots, x) - {slots[k]}
  {
    RemoveAtAscending(slots, k);
    RemoveAtMembers(slots, k);
  }

  lemma Without(free: set<nat>, x: nat, taken: set<nat>)
    ensures free - ({x} + taken) == (free - {x}) - taken
  {
  }

  lemma TakeLater(slots: seq<nat>, picks: seq<nat>, t: nat)
    requires Ascending(slots) && ValidPicks(picks, |slots|) && 0 < t < |picks|
    ensures var (rest, taken) := (RemoveAt(slots, picks[0]), Take(slots, picks));
            var others := Take(rest, picks[1..]);
            && Ascending(rest) && taken[t] == others[t - 1]
            && Smaller(slots, taken[t]) - Members(taken[..t]) == Smaller(rest, taken[t]) - Members(others[..t - 1])
  {
    var taken, others := Take(slots, picks), Take(RemoveAt(slots, picks[0]), picks[1..]);
    assert taken == [slots[picks[0]]] + others;
    assert taken[..t] == [slots[picks[0]]] + others[..t - 1];
    SmallerRest(slots, picks[0], taken[t]);
    MembersCons(slots[picks[0]], others[..t - 1]);
    Without(Smaller(slots, taken[t]), slots[picks[0]], Members(others[..t - 1]));
  }

  /** A pick is a rank: of the slots that are still free, exactly as many lie below the picked one as the pick says. */
  lemma {:induction false} PickIsRank(slots: seq<nat>, picks: seq<nat>, t: nat)
    requires Ascending(slots) && ValidPicks(picks, |slots|) && t < |picks|
    ensures |Smaller(slots, Take(slots, picks)[t]) - Members(Take(slots, picks)[..t])| == picks[t]
    decreases t
  {
    var taken := Take(slots, picks);
    if t == 0 {
      SmallerSize(slots, picks[0]);
      assert Smaller(slots, taken[0]) - Members(taken[..0]) == Smaller(slots, taken[0]);
    } else {
      TakeLater(slots, picks, t);
      PickIsRank(RemoveAt(slots, picks[0]), picks[1..], t - 1);
    }
  }

  // ---------------------------------------------------------------- counting

  /** n * (n-1) * ... for k factors. */
  function Falling(n: nat, k: nat): nat
    requires k <= n
  {
    if k == 0 then 1 else n * Falling(n - 1, k - 1)
  }

  function Push(p: (nat, seq<nat>)): seq<nat> {
    [p.0] + p.1
  }

  function PushAll(pairs: set<(nat, seq<nat>)>): set<seq<nat>> {
    set p | p in pairs :: Push(p)
  }

  /** All pick sequences of length `k` over `n` slots. */
  function AllPicks(n: nat, k: nat): (r: set<seq<nat>>)
    requires k <= n
    decreases k
  {
    if k == 0 then {[]} else PushAll(Pairs(Below(n), AllPicks(n - 1, k - 1)))
  }

  ghost predicate PicksOfLength(picks: seq<nat>, n: nat, k: nat) {
    |picks| == k && ValidPicks(picks, n)
  }

  lemma PicksStep(picks: seq<nat>, n: nat, k: nat)
    requires 0 < k <= n
    ensures PicksOfLength(picks, n, k) <==>
            picks != [] && picks[0] in Below(n) && PicksOfLength(picks[1..], n - 1, k - 1)
  {
    if picks != [] && picks[0] in Below(n) && PicksOfLength(picks[1..], n - 1, k - 1) {
      assert forall i :: 1 <= i < |picks| ==> picks[i] == picks[1..][i - 1];
    }
  }

  lemma PushMember(picks: seq<nat>, a: set<nat>, b: set<seq<nat>>)
    ensures picks in PushAll(Pairs(a, b)) <==> picks != [] && picks[0] in a && picks[1..] in b
  {
    if picks in PushAll(Pairs(a, b)) {
      var p :| p in Pairs(a, b) && picks == Push(p);
      assert picks[1..] == p.1;
    }
    if picks != [] {
      assert picks == Push((picks[0], picks[1..]));
    }
  }

  lemma PushPicks(n: nat, k: nat, picks: seq<nat>, rest: set<seq<nat>>)
    requires 0 < k <= n
    requires picks != [] ==> (picks[1..] in rest <==> PicksOfLength(picks[1..], n - 1, k - 1))
    ensures picks in PushAll(Pairs(Below(n), rest)) <==> PicksOfLength(picks, n, k)
  {
    PushMember(picks, Below(n), rest);
    PicksStep(picks, n, k);
  }

  lemma {:induction false} AllPicksMembers(n: nat, k: nat, picks: seq<nat>)
    requires k <= n
    ensures picks in AllPicks(n, k) <==> PicksOfLength(picks, n, k)
    decreases k
  {
    if k > 0 {
      if picks != [] {
        AllPicksMembers(n - 1, k - 1, picks[1..]);
      }
      PushPicks(n, k, picks, AllPicks(n - 1, k - 1));
    }
  }

  lemma PushInjective(x: (nat, seq<nat>), y: (nat, seq<nat>))
    requires Push(x) == Push(y)
    ensures x == y
  {
    assert Push(x)[0] == x.0 && Push(y)[0] == y.0;
    assert Push(x)[1..] == x.1 && Push(y)[1..] == y.1;
  }

  lemma PushImageSize(pairs: set<(nat, seq<nat>)>)
    ensures |PushAll(pairs)| == |pairs|
  {
    forall x, y | x in pairs && y in pairs && Push(x) == Push(y)
      ensures x == y
    {
      PushInjective(x, y);
    }
    ImageSize(pairs, Push, PushAll(pairs));
  }

  lemma PushCount(a: set<nat>, b: set<seq<nat>>, m: nat, n: nat)
    requires |a| == m && |b| == n
    ensures |PushAll(Pairs(a, b))| == m * n
  {
    PairsSize(a, b, m, n);
    PushImageSize(Pairs(a, b));
  }

  /** There are n * (n-1) * ... * (n-k+1) pick sequences of length k over n slots. */
  lemma {:induction false} AllPicksSize(n: nat, k: nat)
    requires k <= n
    ensures |AllPicks(n, k)| == Falling(n, k)
    decreases k
  {
    if k > 0 {
      AllPicksSize(n - 1, k - 1);
      PushCount(Below(n), AllPicks(n - 1, k - 1), n, Falling(n - 1, k - 1));
    }
  }
}

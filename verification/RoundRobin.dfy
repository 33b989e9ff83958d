/** Fairness of the scheduler: with the states fixed, successive calls go round the RUNNING
    tasks in ring order. */
module RoundRobin {
  import opened ProcessSpec

  /** k calls of schedule in a row. */
  ghost function Turns(s: Sys, k: nat): Sys
    decreases k
  {
    if k == 0 || !HasCurrent(s) then s else Turns(Schedule(s), k - 1)
  }

  function Pos(ring: seq<Proc>, i: nat, k: nat): (j: nat)
    requires i < |ring|
    ensures j < |ring|
    decreases k
  {
    if k == 0 then i else Pos(ring, PickNext(ring, i), k - 1)
  }

  lemma {:induction false} TurnsPos(s: Sys, k: nat)
    requires HasCurrent(s) && UniquePids(s.ring) && forall i :: 0 <= i < |s.ring| ==> s.ring[i].pid > 0
    ensures Turns(s, k) == s.(cur := s.ring[Pos(s.ring, Find(s.ring, s.cur), k)].pid)
    decreases k
  {
    if k > 0 {
      var j := PickNext(s.ring, Find(s.ring, s.cur));
      FindIs(s.ring, j);
      TurnsPos(s.(cur := s.ring[j].pid), k - 1);
    } else {
      assert s.ring[Find(s.ring, s.cur)].pid == s.cur;
    }
  }

  function Count(ps: seq<Proc>): (n: nat)
    ensures n <= |ps|
  {
    if ps == [] then 0 else (if ps[0].state == Running then 1 else 0) + Count(ps[1..])
  }

  lemma {:induction false} CountSplits(a: seq<Proc>, b: seq<Proc>)
    ensures Count(a + b) == Count(a) + Count(b)
  {
    if a == [] {
      assert a + b == b;
    } else {
      assert (a + b)[1..] == a[1..] + b;
      CountSplits(a[1..], b);
    }
  }

  /** The ring as seen from position i: its successor first, i itself last. */
  function From(ring: seq<Proc>, i: nat): seq<Proc>
    requires i < |ring|
  {
    ring[i + 1..] + ring[..i + 1]
  }

  lemma FromAt(ring: seq<Proc>, i: nat, k: nat)
    requires i < |ring| && 1 <= k <= |ring|
    ensures From(ring, i)[k - 1] == ring[Ahead(|ring|, i, k)]
  {
  }

  /** The first task found is the only RUNNING one among those passed. */
  lemma {:induction false} CountNone(ps: seq<Proc>)
    requires forall k :: 0 <= k < |ps| ==> ps[k].state != Running
    ensures Count(ps) == 0
  {
    if ps != [] { CountNone(ps[1..]); }
  }

  lemma FromStep(ring: seq<Proc>, i: nat, e: nat, d: nat)
    requires i < |ring| && 1 <= e < d <= |ring|
    ensures Ahead(|ring|, Ahead(|ring|, i, e), d - e) == Ahead(|ring|, i, d)
    ensures From(ring, Ahead(|ring|, i, e))[..d - e] == From(ring, i)[e..d]
  {
    var n := |ring|;
    var i' := Ahead(n, i, e);
    AheadTwice(n, i, e, d - e);
    forall k | 0 <= k < d - e ensures From(ring, i')[k] == From(ring, i)[e + k] {
      FromAt(ring, i', k + 1);
      FromAt(ring, i, e + k + 1);
      AheadTwice(n, i, e, k + 1);
    }
  }

  lemma AheadTwice(n: nat, i: nat, e: nat, k: nat)
    requires i < n && e + k <= n
    ensures Ahead(n, Ahead(n, i, e), k) == Ahead(n, i, e + k)
  {
  }

  /** One call passes exactly one RUNNING task: the one it picks. */
  lemma OneStep(ring: seq<Proc>, i: nat, e: nat)
    requires i < |ring| && e == Distance(ring, i, 1) && ring[Ahead(|ring|, i, e)].state == Running
    ensures PickNext(ring, i) == Ahead(|ring|, i, e) && Count(From(ring, i)[..e]) == 1
  {
    var f := From(ring, i);
    forall k | 0 <= k < e - 1 ensures f[k].state != Running { FromAt(ring, i, k + 1); }
    CountNone(f[..e - 1]);
    FromAt(ring, i, e);
    assert f[..e] == f[..e - 1] + [f[e - 1]];
    CountSplits(f[..e - 1], [f[e - 1]]);
    assert Count([f[e - 1]][1..]) == 0;
  }

  /** Standing at i, a RUNNING task d places ahead is reached after exactly as many calls as
      there are RUNNING tasks among those d places. */
  lemma {:induction false} Reaches(ring: seq<Proc>, i: nat, d: nat)
    requires i < |ring| && 1 <= d <= |ring| && ring[Ahead(|ring|, i, d)].state == Running
    ensures Count(From(ring, i)[..d]) >= 1
    ensures Pos(ring, i, Count(From(ring, i)[..d])) == Ahead(|ring|, i, d)
    decreases d
  {
    var e := Distance(ring, i, 1);
    assert e <= d;
    OneStep(ring, i, e);
    if e < d {
      FromStep(ring, i, e, d);
      Reaches(ring, Ahead(|ring|, i, e), d - e);
      CountJoin(From(ring, i), e, d);
    } else {
      assert Pos(ring, PickNext(ring, i), 0) == PickNext(ring, i);
    }
  }

  lemma CountJoin(f: seq<Proc>, e: nat, d: nat)
    requires e <= d <= |f|
    ensures Count(f[..d]) == Count(f[..e]) + Count(f[e..d])
  {
    assert f[..d] == f[..e] + f[e..d];
    CountSplits(f[..e], f[e..d]);
  }

  /** Every RUNNING task gets the processor within as many calls as there are RUNNING tasks. */
  lemma Fair(s: Sys, j: nat)
    requires HasCurrent(s) && UniquePids(s.ring) && forall i :: 0 <= i < |s.ring| ==> s.ring[i].pid > 0
    requires j < |s.ring| && s.ring[j].state == Running
    ensures exists k: nat :: 1 <= k <= Count(s.ring) && Turns(s, k) == s.(cur := s.ring[j].pid)
  {
    var i := Find(s.ring, s.cur);
    var d := AheadReaches(|s.ring|, i, j);
    Reaches(s.ring, i, d);
    PrefixCount(s.ring, i, d);
    TurnsPos(s, Count(From(s.ring, i)[..d]));
  }

  lemma CountPrefix(f: seq<Proc>, d: nat)
    requires d <= |f|
    ensures Count(f[..d]) <= Count(f)
  {
    assert f == f[..d] + f[d..];
    CountSplits(f[..d], f[d..]);
  }

  lemma CountRotates(ring: seq<Proc>, a: seq<Proc>, b: seq<Proc>)
    requires ring == a + b
    ensures Count(b + a) == Count(ring)
  {
    CountSplits(a, b);
    CountSplits(b, a);
  }

  lemma CountFrom(ring: seq<Proc>, i: nat)
    requires i < |ring|
    ensures Count(From(ring, i)) == Count(ring)
  {
    CountRotates(ring, ring[..i + 1], ring[i + 1..]);
  }

  lemma PrefixCount(ring: seq<Proc>, i: nat, d: nat)
    requires i < |ring| && d <= |ring|
    ensures Count(From(ring, i)[..d]) <= Count(ring)
  {
    CountPrefix(From(ring, i), d);
    CountFrom(ring, i);
  }
}

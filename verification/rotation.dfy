/**
 Advancing a task's rotation (`FlipperCore.flipTask`): the outgoing person
 and the time are recorded and the pointer moves to the next person,
 wrapping around the end of the people snapshot.
 */
module Rotation {
  import opened Options
  import opened TaskStates

  /**
   JavaScript's `%`: the remainder of division truncated toward zero, so it
   takes the sign of the dividend (Dafny's own `%` never goes negative).
   */
  function JsRemainder(a: int, n: int): (r: int)
    requires n > 0
    ensures -n < r < n
    ensures a >= 0 ==> r >= 0 && r == a % n
    ensures a <= 0 ==> r <= 0
  {
    if a >= 0 then a % n else -((-a) % n)
  }

  /** Unlike Dafny's `%`, the truncating remainder is odd in its dividend. */
  lemma JsRemainderOdd(a: int, n: int)
    requires n > 0
    ensures JsRemainder(-a, n) == -JsRemainder(a, n)
  {
  }

  /** `x` reduced into `0 .. n-1` by repeatedly taking `n` away: the remainder, without division. */
  function Wrap(x: nat, n: nat): (r: nat)
    requires n > 0
    ensures r < n
    decreases x
  {
    if x < n then x else Wrap(x - n, n)
  }

  lemma {:induction false} WrapIsRemainder(x: nat, n: nat)
    requires n > 0
    ensures Wrap(x, n) == x % n
    decreases x
  {
    if x >= n {
      WrapIsRemainder(x - n, n);
      SubtractModulus(x, n);
    }
  }

  lemma SubtractModulus(x: nat, n: nat)
    requires 0 < n <= x
    ensures (x - n) % n == x % n
  {
    var q, r := x / n, x % n;
    assert x == q * n + r;
    assert x - n == (q - 1) * n + r;
    RemainderUnique(x - n, q - 1, r, n);
  }

  /** Euclidean division has one quotient and remainder. */
  lemma RemainderUnique(x: int, q: int, r: int, n: int)
    requires n > 0 && 0 <= r < n && x == q * n + r
    ensures x % n == r
  {
    var q', r' := x / n, x % n;
    assert (q - q') * n == r' - r;
    if q > q' {
      MultiplyAtLeast(q - q', n);
    } else if q < q' {
      MultiplyAtLeast(q' - q, n);
    }
  }

  lemma MultiplyAtLeast(k: int, n: int)
    requires k >= 1 && n > 0
    ensures k * n >= n
  {
  }

  lemma {:induction false} WrapAdd(x: nat, y: nat, n: nat)
    requires n > 0
    ensures Wrap(Wrap(x, n) + y, n) == Wrap(x + y, n)
    decreases x
  {
    if x >= n {
      WrapAdd(x - n, y, n);
      assert Wrap(x + y, n) == Wrap(x - n + y, n);
    }
  }

  /** `people[i]`, or nothing where JavaScript would give `undefined`. */
  function PersonAt(people: seq<string>, i: int): (r: Option<string>)
    ensures r.Some? <==> 0 <= i < |people|
    ensures r.Some? ==> r.value == people[i] && r.value in people
  {
    if 0 <= i < |people| then Some(people[i]) else None
  }

  /** One flip of one task at time `now`. An empty rotation is excluded (the source divides by zero there). */
  function Flip(s: TaskState, now: Timestamp): (r: TaskState)
    requires |s.people| > 0
    ensures r.people == s.people
    ensures r.lastFlipTime == Some(now)
    ensures InRange(s) ==> r.lastPerson == Some(s.people[s.currentIndex])
    ensures InRange(s) ==> InRange(r)
    ensures InRange(s) ==>
              r.currentIndex == if s.currentIndex == |s.people| - 1 then 0 else s.currentIndex + 1
    ensures WellFormed(s) ==> WellFormed(r)
    ensures s.currentIndex >= 0 ==> InRange(r)
    ensures !InRange(s) ==> r.lastPerson == None
    ensures s.currentIndex >= |s.people| ==> r.currentIndex == (s.currentIndex + 1) % |s.people|
    ensures s.currentIndex < 0 ==> -|s.people| < r.currentIndex <= 0
  {
    NextPosition(s.currentIndex, |s.people|);
    TaskState(JsRemainder(s.currentIndex + 1, |s.people|), PersonAt(s.people, s.currentIndex),
              Some(now), s.people)
  }

  /** From a position inside the list, the next position is one on, or 0 from the last. */
  lemma NextPosition(i: int, n: int)
    requires n > 0
    ensures 0 <= i < n ==> JsRemainder(i + 1, n) == if i == n - 1 then 0 else i + 1
  {
    if 0 <= i < n - 1 {
      RemainderUnique(i + 1, 0, i + 1, n);
    } else if i == n - 1 {
      RemainderUnique(n, 1, 0, n);
    }
  }

  /**
   Flip the task called `name` inside the mapping; a name with no entry is
   silently ignored. Only the named task's rotation must be non-empty.
   */
  function FlipTask(name: string, states: StateMapping, now: Timestamp): (r: StateMapping)
    requires name in states ==> |states[name].people| > 0
    ensures name !in states ==> r == states
    ensures r.Keys == states.Keys
    ensures name in states ==> r[name] == Flip(states[name], now)
    ensures forall other :: other in states && other != name ==> r[other] == states[other]
  {
    if name in states then states[name := Flip(states[name], now)] else states
  }

  /** A flip keeps every entry of a well-formed mapping well-formed. */
  lemma FlipTaskWellFormed(name: string, states: StateMapping, now: Timestamp)
    requires WellFormedMapping(states)
    ensures WellFormedMapping(FlipTask(name, states, now))
  {
  }

  /** A task with a single person stays on that person, yet each flip is still recorded. */
  lemma SinglePersonFlip(s: TaskState, now: Timestamp)
    requires |s.people| == 1 && InRange(s)
    ensures Flip(s, now).currentIndex == 0
    ensures Flip(s, now).lastPerson == Some(s.people[0])
    ensures Flip(s, now).lastFlipTime == Some(now)
  {
  }

  /** Successive flips of one task, at the times `nows`, in order. */
  function Flips(s: TaskState, nows: seq<Timestamp>): (r: TaskState)
    requires |s.people| > 0
    ensures r.people == s.people
    decreases |nows|
  {
    if |nows| == 0 then s else Flips(Flip(s, nows[0]), nows[1..])
  }

  /** After `k` flips from an in-range pointer, the pointer has moved `k` places round the rotation. */
  lemma {:induction false} FlipsAdvance(s: TaskState, nows: seq<Timestamp>)
    requires |s.people| > 0 && InRange(s)
    ensures InRange(Flips(s, nows))
    ensures Flips(s, nows).currentIndex == Wrap(s.currentIndex + |nows|, |s.people|)
    ensures Flips(s, nows).currentIndex == (s.currentIndex + |nows|) % |s.people|
    decreases |nows|
  {
    var n := |s.people|;
    if |nows| > 0 {
      var t := Flip(s, nows[0]);
      FlipsAdvance(t, nows[1..]);
      assert t.currentIndex == Wrap(s.currentIndex + 1, n);
      WrapAdd(s.currentIndex + 1, |nows| - 1, n);
    }
    WrapIsRemainder(s.currentIndex + |nows|, n);
  }

  /** Flipping as many times as the task has people brings the pointer back where it started. */
  lemma FullCycleRestoresIndex(s: TaskState, nows: seq<Timestamp>)
    requires |s.people| > 0 && InRange(s)
    requires |nows| == |s.people|
    ensures Flips(s, nows).currentIndex == s.currentIndex
  {
    FlipsAdvance(s, nows);
  }

  /** The last of a run of flips records as last person the one `|nows| - 1` places after the start. */
  lemma FlipsRecordOutgoing(s: TaskState, nows: seq<Timestamp>)
    requires |s.people| > 0 && InRange(s)
    requires |nows| > 0
    ensures Flips(s, nows).lastPerson
              == Some(s.people[Wrap(s.currentIndex + |nows| - 1, |s.people|)])
    ensures Flips(s, nows).lastFlipTime == Some(nows[|nows| - 1])
  {
    var init := nows[..|nows| - 1];
    var before := Flips(s, init);
    FlipsAdvance(s, init);
    FlipsSnoc(s, init, nows[|nows| - 1]);
    assert init + [nows[|nows| - 1]] == nows;
  }

  /** Flips at `nows` and then at `now` are the same as one more flip after the run. */
  lemma {:induction false} FlipsSnoc(s: TaskState, nows: seq<Timestamp>, now: Timestamp)
    requires |s.people| > 0
    ensures Flips(s, nows + [now]) == Flip(Flips(s, nows), now)
    decreases |nows|
  {
    if |nows| == 0 {
      assert nows + [now] == [now];
    } else {
      assert (nows + [now])[1..] == nows[1..] + [now];
      FlipsSnoc(Flip(s, nows[0]), nows[1..], now);
    }
  }

  /** Successive `FlipTask` calls on one name, at the times `nows`. */
  function FlipTaskRepeated(name: string, states: StateMapping, nows: seq<Timestamp>): (r: StateMapping)
    requires name in states ==> |states[name].people| > 0
    ensures r.Keys == states.Keys
    ensures name in states ==> r[name].people == states[name].people
    decreases |nows|
  {
    if |nows| == 0 then states else FlipTaskRepeated(name, FlipTask(name, states, nows[0]), nows[1..])
  }

  /** Repeated flips of one task act on that task alone, as `Flips` does. */
  lemma {:induction false} FlipTaskRepeatedIsFlips(name: string, states: StateMapping, nows: seq<Timestamp>)
    requires name in states ==> |states[name].people| > 0
    ensures name !in states ==> FlipTaskRepeated(name, states, nows) == states
    ensures name in states ==>
              FlipTaskRepeated(name, states, nows) == states[name := Flips(states[name], nows)]
    decreases |nows|
  {
    if |nows| > 0 {
      var next := FlipTask(name, states, nows[0]);
      FlipTaskRepeatedIsFlips(name, next, nows[1..]);
      if name in states {
        assert next[name := Flips(next[name], nows[1..])] == states[name := Flips(states[name], nows)];
      }
    } else if name in states {
      assert states[name := states[name]] == states;
    }
  }

  /**
   In the mapping: flipping a task once per person restores its pointer,
   and leaves every other task's entry as it was.
   */
  lemma FullCycleInMapping(name: string, states: StateMapping, nows: seq<Timestamp>)
    requires name in states && |states[name].people| > 0 && InRange(states[name])
    requires |nows| == |states[name].people|
    ensures FlipTaskRepeated(name, states, nows)[name].currentIndex == states[name].currentIndex
    ensures forall other :: other in states && other != name ==>
              FlipTaskRepeated(name, states, nows)[other] == states[other]
  {
    FlipTaskRepeatedIsFlips(name, states, nows);
    FullCycleRestoresIndex(states[name], nows);
  }
}

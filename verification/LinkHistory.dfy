/**
 * What the limiter answers, said by the attempts that came before: which of them were turned away, which wrong PINs
 * count, and which one set a cooldown.
 */
module LinkHistory {
  import opened Options
  import opened LinkAuthenticator

  /** An attempt is turned away exactly within a minute of an earlier wrong PIN that set a cooldown. */
  ghost predicate Refused(r: seq<Attempt>, i: nat)
    requires i < |r|
    decreases i, 0
  {
    exists j: nat :: j < i && Sets(r, j) && r[i].at < r[j].at + COOLDOWN_MS
  }

  /** A right PIN that was compared, and a wrong one that sets a cooldown, make a fresh start. */
  ghost predicate Clears(r: seq<Attempt>, m: nat)
    requires m < |r|
    decreases m, 4
  {
    (r[m].right && !Refused(r, m)) || Sets(r, m)
  }

  /** A wrong PIN that was compared in the last minute counts, unless there was a fresh start or it could set no cooldown. */
  ghost predicate Stands(r: seq<Attempt>, k: nat, i: nat)
    requires k < i < |r|
    decreases i, 1
  {
    && !r[k].right && !Refused(r, k) && !Dropped(r, k) && r[k].at >= r[i].at - FAILURE_WINDOW_MS
    && forall m: nat :: k <= m < i ==> !Clears(r, m)
  }

  ghost function Standing(r: seq<Attempt>, i: nat): set<nat>
    requires i < |r|
    decreases i, 2
  {
    set k: nat | k < i && Stands(r, k, i)
  }

  /** The fifth wrong PIN that counts sets a cooldown, if a date can name its end. */
  ghost predicate Sets(r: seq<Attempt>, i: nat)
    requires i < |r|
    decreases i, 3
  {
    && !r[i].right && !Refused(r, i) && |Standing(r, i)| + 1 >= MAX_FAILURES && r[i].at + COOLDOWN_MS <= LAST_DATE
  }

  ghost predicate Dropped(r: seq<Attempt>, i: nat)
    requires i < |r|
    decreases i, 3
  {
    && !r[i].right && !Refused(r, i) && |Standing(r, i)| + 1 >= MAX_FAILURES && r[i].at + COOLDOWN_MS > LAST_DATE
  }

  ghost predicate InTime(r: seq<Attempt>) {
    forall i, j :: 0 <= i < j < |r| ==> r[i].at <= r[j].at
  }

  // ---- The limiter keeps to it ----

  /** Some attempts in order, by their times. */
  ghost predicate Times(r: seq<Attempt>, idx: seq<nat>, times: seq<int>) {
    && |idx| == |times| && (forall n :: 0 <= n < |idx| ==> idx[n] < |r| && times[n] == r[idx[n]].at)
    && forall n, m :: 0 <= n < m < |idx| ==> idx[n] < idx[m]
  }

  /** A wrong PIN that counts for an attempt still to come, as far as the attempts before it say. */
  ghost predicate Remains(r: seq<Attempt>, k: nat, i: nat)
    requires k < i <= |r|
  {
    && !r[k].right && !Refused(r, k) && !Dropped(r, k) && r[k].at >= r[i - 1].at - FAILURE_WINDOW_MS
    && forall m: nat :: k <= m < i ==> !Clears(r, m)
  }

  ghost predicate Cooled(r: seq<Attempt>, i: nat, j: nat, until: int)
    requires i <= |r|
  {
    j < i && Sets(r, j) && until == r[j].at + COOLDOWN_MS && forall m: nat :: j < m < i ==> Refused(r, m)
  }

  /** The limiter after the first attempts. */
  ghost predicate Told(r: seq<Attempt>, i: nat, l: Limiter, idx: seq<nat>, j: nat)
    requires i <= |r|
  {
    if l.cooldownUntil.Some? then Cooled(r, i, j, l.cooldownUntil.value)
    else
      && Times(r, idx, l.failures) && (forall n :: 0 <= n < |idx| ==> idx[n] < i)
      && (forall k: nat :: k < i ==> (k in idx <==> Remains(r, k, i)))
      && forall m: nat :: m < i && Sets(r, m) ==> exists n: nat :: n < i && r[m].at + COOLDOWN_MS <= r[n].at
  }

  lemma {:induction false} SizeOf(idx: seq<nat>, s: set<nat>)
    requires forall n, m :: 0 <= n < m < |idx| ==> idx[n] < idx[m]
    requires forall k: nat :: k in idx <==> k in s
    ensures |s| == |idx|
  {
    if idx == [] {
      assert s == {};
    } else {
      var init, last := idx[..|idx| - 1], idx[|idx| - 1];
      assert idx == init + [last] && last in idx;
      SizeOf(init, s - {last});
    }
  }

  lemma RefusedByTold(r: seq<Attempt>, i: nat, l: Limiter, idx: seq<nat>, j: nat)
    requires InTime(r) && i < |r| && Told(r, i, l, idx, j)
    ensures Cooling(l, r[i].at) <==> Refused(r, i)
    ensures l.cooldownUntil.Some? && !Refused(r, i) ==> Standing(r, i) == {}
  {
    hide Sets, Dropped;
    if l.cooldownUntil.Some? {
      if Refused(r, i) {
        var m: nat :| m < i && Sets(r, m) && r[i].at < r[m].at + COOLDOWN_MS;
        if m > j { SetsIsCompared(r, m); }
      } else {
        forall k: nat | k < i ensures !Stands(r, k, i) {
          if k <= j { assert Clears(r, j); }
        }
      }
    }
  }

  lemma SetsIsCompared(r: seq<Attempt>, m: nat)
    requires m < |r| && Sets(r, m)
    ensures !Refused(r, m) && !r[m].right
  {
  }

  /** The failures the limiter counts against an attempt are the ones that stand at it. */
  lemma CountedByTold(r: seq<Attempt>, i: nat, l: Limiter, idx: seq<nat>, j: nat) returns (more: seq<nat>)
    requires InTime(r) && i < |r| && Told(r, i, l, idx, j) && !Refused(r, i)
    ensures Times(r, more, Counted(l, r[i].at)) && forall k: nat :: k in more <==> k in Standing(r, i)
    ensures |Counted(l, r[i].at)| == |Standing(r, i)|
  {
    hide Sets, Dropped, Refused, Recent, Clears;
    RefusedByTold(r, i, l, idx, j);
    if l.cooldownUntil.Some? {
      more := [];
    } else {
      RisingTimes(r, idx, l.failures);
      var c := RecentAreLast(l.failures, r[i].at);
      more := idx[c..];
      forall k: nat ensures k in more <==> k in Standing(r, i) { RecentStands(r, i, idx, l.failures, c, k); }
    }
    SizeOf(more, Standing(r, i));
  }

  lemma RisingTimes(r: seq<Attempt>, idx: seq<nat>, times: seq<int>)
    requires InTime(r) && Times(r, idx, times)
    ensures Rising(times)
  {
  }

  lemma RecentStands(r: seq<Attempt>, i: nat, idx: seq<nat>, failures: seq<int>, c: nat, k: nat)
    requires InTime(r) && i < |r| && Times(r, idx, failures) && c <= |idx| && forall n :: 0 <= n < |idx| ==> idx[n] < i
    requires forall k: nat :: k < i ==> (k in idx <==> Remains(r, k, i))
    requires forall n :: 0 <= n < c ==> failures[n] < r[i].at - FAILURE_WINDOW_MS
    requires forall n :: c <= n < |failures| ==> failures[n] >= r[i].at - FAILURE_WINDOW_MS
    ensures k in idx[c..] <==> k in Standing(r, i)
  {
    hide Sets, Dropped, Refused, Clears, InTime, Remains, Stands;
    LateOnes(r, idx, failures, c, r[i].at, k);
    if k < i { RemainsOrStands(r, k, i); }
    if k in idx { assert k < i; }
  }

  lemma LateOnes(r: seq<Attempt>, idx: seq<nat>, times: seq<int>, c: nat, now: int, k: nat)
    requires Times(r, idx, times) && c <= |idx|
    requires forall n :: 0 <= n < c ==> times[n] < now - FAILURE_WINDOW_MS
    requires forall n :: c <= n < |times| ==> times[n] >= now - FAILURE_WINDOW_MS
    ensures k in idx[c..] <==> k in idx && k < |r| && r[k].at >= now - FAILURE_WINDOW_MS
  {
    if k in idx {
      var n :| 0 <= n < |idx| && idx[n] == k;
      assert times[n] == r[k].at;
      if n >= c { assert idx[c..][n - c] == k; }
      if k in idx[c..] {
        var m :| 0 <= m < |idx[c..]| && idx[c..][m] == k;
        assert idx[c + m] == k;
      }
    }
  }

  lemma RemainsOrStands(r: seq<Attempt>, k: nat, i: nat)
    requires InTime(r) && k < i < |r|
    ensures Stands(r, k, i) <==> Remains(r, k, i) && r[k].at >= r[i].at - FAILURE_WINDOW_MS
  {
    hide Sets, Dropped, Refused, Clears;
    assert r[i - 1].at <= r[i].at;
  }

  /** One attempt more. */
  lemma NextTold(r: seq<Attempt>, i: nat, l: Limiter, idx: seq<nat>, j: nat) returns (more: seq<nat>, set_: nat)
    requires InTime(r) && i < |r| && Told(r, i, l, idx, j)
    ensures Told(r, i + 1, After(l, r[i]), more, set_)
  {
    hide Sets, Dropped, Refused, Recent, Clears, Counted, Standing, Told, Times;
    RefusedByTold(r, i, l, idx, j);
    if Refused(r, i) {
      more, set_ := [], j;
      StillCooled(r, i, l, idx, j);
    } else {
      var counted := CountedByTold(r, i, l, idx, j);
      SetsMeans(r, i);
      var wrong := !r[i].right && !Dropped(r, i);
      more, set_ := if r[i].right then [] else counted + if wrong then [i] else [], i;
      if Sets(r, i) {
        JustCooled(r, i, After(l, r[i]), more);
      } else {
        Uncooled(r, i, counted, Counted(l, r[i].at), After(l, r[i]), more);
      }
    }
  }

  lemma StillCooled(r: seq<Attempt>, i: nat, l: Limiter, idx: seq<nat>, j: nat)
    requires i < |r| && Told(r, i, l, idx, j) && l.cooldownUntil.Some? && Refused(r, i)
    ensures forall failures :: Told(r, i + 1, Limiter(failures, l.cooldownUntil), [], j)
  {
    hide Sets, Refused, Remains;
  }

  lemma JustCooled(r: seq<Attempt>, i: nat, l: Limiter, idx: seq<nat>)
    requires i < |r| && Sets(r, i) && l.cooldownUntil == Some(r[i].at + COOLDOWN_MS)
    ensures Told(r, i + 1, l, idx, i)
  {
    hide Sets, Remains;
  }

  /** A compared attempt that sets no cooldown leaves the wrong PINs that stood at it, and itself, unless it was right. */
  lemma Uncooled(r: seq<Attempt>, i: nat, counted: seq<nat>, failures: seq<int>, l: Limiter, more: seq<nat>)
    requires InTime(r) && i < |r| && !Refused(r, i) && !Sets(r, i)
    requires Times(r, counted, failures) && forall k: nat :: k in counted <==> k in Standing(r, i)
    requires var wrong := !r[i].right && !Dropped(r, i);
      && more == (if r[i].right then [] else counted + if wrong then [i] else [])
      && l == Limiter(if r[i].right then [] else failures + if wrong then [r[i].at] else [], None)
    ensures Told(r, i + 1, l, more, i)
  {
    hide Sets, Dropped, Refused, Clears, Standing, Stands, Remains, Times, InTime;
    MoreTimes(r, i, counted, failures);
    assert counted + [] == counted && failures + [] == failures;
    NoTimes(r);
    SetsOver(r, i);
    forall k: nat | k < i + 1 ensures k in more <==> Remains(r, k, i + 1) { KeptAt(r, i, counted, more, k); }
    forall m: nat | m < i + 1 && Sets(r, m) ensures exists n: nat :: n < i + 1 && r[m].at + COOLDOWN_MS <= r[n].at { }
  }

  lemma NoTimes(r: seq<Attempt>)
    ensures Times(r, [], [])
  {
  }

  lemma KeptAt(r: seq<Attempt>, i: nat, counted: seq<nat>, more: seq<nat>, k: nat)
    requires k <= i < |r| && !Refused(r, i) && !Sets(r, i)
    requires forall k: nat :: k in counted <==> k in Standing(r, i)
    requires more == if r[i].right then [] else counted + if !r[i].right && !Dropped(r, i) then [i] else []
    ensures k in more <==> Remains(r, k, i + 1)
  {
    hide Sets, Dropped, Refused, Clears, Standing, Stands, Remains;
    FreshStart(r, i);
    SetsMeans(r, i);
    assert k in counted <==> k in Standing(r, i);
    assert k in counted + [i] <==> k in counted || k == i;
    assert counted + [] == counted;
  }

  /** What stands at an attempt that is compared stays, unless it makes a fresh start. */
  lemma FreshStart(r: seq<Attempt>, i: nat)
    requires i < |r| && !Refused(r, i)
    ensures forall k: nat :: k < i ==> (Remains(r, k, i + 1) <==> k in Standing(r, i) && !Clears(r, i))
    ensures Remains(r, i, i + 1) <==> !r[i].right && !Dropped(r, i) && !Clears(r, i)
    ensures forall k :: k in Standing(r, i) ==> k < i
  {
    hide Sets, Dropped, Refused, Clears, Stands, Remains;
    forall k: nat | k < i ensures Remains(r, k, i + 1) <==> k in Standing(r, i) && !Clears(r, i) { FreshFor(r, k, i); }
    FreshItself(r, i);
  }

  lemma FreshFor(r: seq<Attempt>, k: nat, i: nat)
    requires k < i < |r|
    ensures Remains(r, k, i + 1) <==> Stands(r, k, i) && !Clears(r, i)
  {
    hide Sets, Dropped, Refused, Clears;
  }

  lemma FreshItself(r: seq<Attempt>, i: nat)
    requires i < |r| && !Refused(r, i)
    ensures Remains(r, i, i + 1) <==> !r[i].right && !Dropped(r, i) && !Clears(r, i)
  {
    hide Sets, Dropped, Refused, Clears;
  }

  lemma SetsMeans(r: seq<Attempt>, i: nat)
    requires i < |r| && !Refused(r, i)
    ensures Clears(r, i) <==> r[i].right || Sets(r, i)
    ensures Sets(r, i) <==> !r[i].right && |Standing(r, i)| + 1 >= MAX_FAILURES && r[i].at + COOLDOWN_MS <= LAST_DATE
    ensures Dropped(r, i) <==> !r[i].right && |Standing(r, i)| + 1 >= MAX_FAILURES && r[i].at + COOLDOWN_MS > LAST_DATE
  {
    hide Refused, Standing;
  }

  /** Every cooldown is over when an attempt is compared that sets none. */
  lemma SetsOver(r: seq<Attempt>, i: nat)
    requires i < |r| && !Refused(r, i) && !Sets(r, i)
    ensures forall m: nat :: m < i + 1 && Sets(r, m) ==> exists n: nat :: n < i + 1 && r[m].at + COOLDOWN_MS <= r[n].at
  {
    hide Sets;
    forall m: nat | m < i + 1 && Sets(r, m) ensures exists n: nat :: n < i + 1 && r[m].at + COOLDOWN_MS <= r[n].at {
      assert r[m].at + COOLDOWN_MS <= r[i].at;
    }
  }

  lemma MoreTimes(r: seq<Attempt>, i: nat, idx: seq<nat>, times: seq<int>)
    requires i < |r| && Times(r, idx, times) && forall k: nat :: k in idx <==> k in Standing(r, i)
    ensures Times(r, idx + [i], times + [r[i].at]) && (forall n :: 0 <= n < |idx| ==> idx[n] < i)
    ensures forall n :: 0 <= n < |idx + [i]| ==> (idx + [i])[n] < i + 1
  {
    hide Stands;
    forall n | 0 <= n < |idx| ensures idx[n] < i { assert idx[n] in idx; }
  }

  lemma {:induction false} RunTold(r: seq<Attempt>, i: nat) returns (idx: seq<nat>, j: nat)
    requires InTime(r) && i <= |r|
    ensures Told(r, i, State(r[..i]), idx, j)
  {
    hide Told, State, InTime;
    if i == 0 {
      idx, j := [], 0;
      assert r[..0] == [];
      StartTold(r);
    } else {
      var before, k := RunTold(r, i - 1);
      assert r[..i] == r[..i - 1] + [r[i - 1]];
      RunOn(r[..i - 1], r[i - 1]);
      idx, j := NextTold(r, i - 1, State(r[..i - 1]), before, k);
    }
  }

  lemma StartTold(r: seq<Attempt>)
    ensures Told(r, 0, State([]), [], 0)
  {
  }

  // ---- What every attempt is answered ----

  ghost predicate AcceptedAt(r: seq<Attempt>, i: nat)
    requires i < |r|
  {
    r[i].right && !Refused(r, i) && r[i].at + TOKEN_TTL_MS <= LAST_DATE
  }

  /**
   * On a clock that does not run back, an attempt is turned away exactly within a minute of a wrong PIN that set a
   * cooldown, a right PIN is accepted exactly if it is not turned away and its token can be dated, and a wrong one is
   * compared exactly if it is not turned away, and counted with exactly those that stand.
   */
  lemma AnswersByHistory(r: seq<Attempt>, i: nat)
    requires InTime(r) && i < |r|
    ensures var l, a := State(r[..i]), r[i];
      && (Cooling(l, a.at) <==> Refused(r, i))
      && (LinkAccepted(l, a) <==> AcceptedAt(r, i))
      && (RightFaulted(l, a) <==> a.right && !Refused(r, i) && a.at + TOKEN_TTL_MS > LAST_DATE)
      && (WrongCompared(l, a) <==> !a.right && !Refused(r, i))
      && (CooldownFaulted(l, a) <==> Dropped(r, i))
      && (!Refused(r, i) ==> |Counted(l, a.at)| == |Standing(r, i)|)
  {
    hide State, Sets, Standing, Counted, Told, Refused;
    var idx, j := RunTold(r, i);
    RefusedByTold(r, i, State(r[..i]), idx, j);
    if !Refused(r, i) {
      var more := CountedByTold(r, i, State(r[..i]), idx, j);
      SetsMeans(r, i);
    }
  }

  /** Until when: the end of the cooldown that the last attempt not turned away has set. */
  lemma RefusedUntil(r: seq<Attempt>, i: nat) returns (j: nat)
    requires InTime(r) && i < |r| && Refused(r, i)
    ensures j < i && Sets(r, j) && State(r[..i]).cooldownUntil == Some(r[j].at + COOLDOWN_MS)
    ensures forall m: nat :: j < m < i ==> Refused(r, m)
  {
    hide State, Sets, Refused;
    var idx, last := RunTold(r, i);
    RefusedByTold(r, i, State(r[..i]), idx, last);
    j := last;
  }

  /** A wrong PIN that was compared, with no link accepted since. */
  ghost predicate WrongSince(r: seq<Attempt>, k: nat, i: nat)
    requires k < i <= |r|
  {
    !r[k].right && !Refused(r, k) && forall m: nat :: k < m < i ==> !AcceptedAt(r, m)
  }

  /** The wrong PINs the limit is about: those compared since the last one that was accepted. */
  lemma {:induction false} WrongByHistory(r: seq<Attempt>, i: nat) returns (idx: seq<nat>)
    requires InTime(r) && i <= |r|
    ensures Times(r, idx, Wrong(r[..i])) && forall k: nat :: k in idx <==> k < i && WrongSince(r, k, i)
  {
    hide State, Wrong, Refused, LinkAccepted, WrongCompared, AcceptedAt, WrongSince, Times, InTime, Counted, Cooling;
    hide CooldownFaulted, RightFaulted, Dropped, Standing;
    if i == 0 {
      idx := [];
      assert r[..0] == [];
      NothingWrong(r);
    } else {
      var before := WrongByHistory(r, i - 1);
      assert r[..i] == r[..i - 1] + [r[i - 1]];
      RunOn(r[..i - 1], r[i - 1]);
      AnswersByHistory(r, i - 1);
      idx := NextWrong(r, i - 1, before, Wrong(r[..i - 1]));
    }
  }

  lemma NextWrong(r: seq<Attempt>, i: nat, idx: seq<nat>, wrong: seq<int>) returns (more: seq<nat>)
    requires i < |r| && Times(r, idx, wrong) && forall k: nat :: k in idx <==> k < i && WrongSince(r, k, i)
    ensures Times(r, more, if AcceptedAt(r, i) then []
                           else wrong + if !r[i].right && !Refused(r, i) then [r[i].at] else [])
    ensures forall k: nat :: k in more <==> k < i + 1 && WrongSince(r, k, i + 1)
  {
    hide Refused, AcceptedAt, WrongSince;
    var last := if !r[i].right && !Refused(r, i) then [i] else [];
    more := if AcceptedAt(r, i) then [] else idx + last;
    forall n | 0 <= n < |idx| ensures idx[n] < i { assert idx[n] in idx; }
    forall k: nat ensures k in more <==> k < i + 1 && WrongSince(r, k, i + 1) {
      if k < i { StaysWrong(r, k, i); } else if k == i { JustWrong(r, i); }
    }
  }

  lemma StaysWrong(r: seq<Attempt>, k: nat, i: nat)
    requires k < i < |r|
    ensures WrongSince(r, k, i + 1) <==> WrongSince(r, k, i) && !AcceptedAt(r, i)
  {
    hide Refused, AcceptedAt;
  }

  lemma JustWrong(r: seq<Attempt>, i: nat)
    requires i < |r|
    ensures WrongSince(r, i, i + 1) <==> !r[i].right && !Refused(r, i)
    ensures AcceptedAt(r, i) ==> r[i].right
  {
    hide Refused;
  }

  lemma NothingWrong(r: seq<Attempt>)
    ensures Wrong([]) == [] && Times(r, [], [])
  {
  }
}

/** Linking by PIN: how often a wrong PIN may be tried, and which tokens are live. */
module LinkAuthenticator {
  import opened Options
  import opened Clients

  const FAILURE_WINDOW_MS: int := 60000
  const MAX_FAILURES: nat := 5
  const COOLDOWN_MS: int := 60000
  const MAX_ACTIVE_TOKENS_PER_ROLE: nat := 64
  const TOKEN_TTL_MS: int := 86400000
  // The last instant a date can name, in milliseconds.
  const LAST_DATE: int := 8640000000000000

  datatype Token = Token(value: string, sessionId: string, role: Role, bridgeInstanceId: string, expiresAt: int)

  /** `Faulted` stands for a clock at its end, on which no cooldown or expiry can be set. */
  datatype Outcome = Accepted(token: Token) | Rejected | RateLimited(retryAt: int) | Faulted

  datatype Validation = TokenAccepted | TokenRejected | InstanceChanged

  // ---- Wrong PINs ----

  /** The failures still in the window. */
  function Recent(failures: seq<int>, now: int): (r: seq<int>)
    ensures |r| <= |failures|
  {
    if failures == [] then []
    else Recent(failures[..|failures| - 1], now)
         + if failures[|failures| - 1] >= now - FAILURE_WINDOW_MS then [failures[|failures| - 1]] else []
  }

  predicate Rising(times: seq<int>) {
    forall i, j :: 0 <= i < j < |times| ==> times[i] <= times[j]
  }

  /** Any six wrong PINs in a row take at least a window. */
  predicate Spaced(times: seq<int>) {
    forall i :: 0 <= i && i + MAX_FAILURES < |times| ==> times[i + MAX_FAILURES] >= times[i] + FAILURE_WINDOW_MS
  }

  lemma {:induction false} AllOld(times: seq<int>, now: int)
    requires forall i :: 0 <= i < |times| ==> times[i] < now - FAILURE_WINDOW_MS
    ensures Recent(times, now) == []
  {
    if times != [] { AllOld(times[..|times| - 1], now); }
  }

  /** Of rising times the recent ones are the last ones. */
  lemma {:induction false} RecentAreLast(times: seq<int>, now: int) returns (k: nat)
    requires Rising(times)
    ensures k <= |times| && Recent(times, now) == times[k..]
    ensures forall i :: 0 <= i < k ==> times[i] < now - FAILURE_WINDOW_MS
    ensures forall i :: k <= i < |times| ==> times[i] >= now - FAILURE_WINDOW_MS
  {
    if times == [] {
      k := 0;
    } else if times[|times| - 1] < now - FAILURE_WINDOW_MS {
      k := |times|;
      AllOld(times, now);
    } else {
      var init, last := times[..|times| - 1], times[|times| - 1];
      k := RecentAreLast(init, now);
      assert times[k..] == init[k..] + [last];
    }
  }

  /**
   * The limiter against some wrong PINs it compared: the failures are the last of them, all others are a window old, and
   * a cooldown runs from the very last.
   */
  ghost predicate Tracks(failures: seq<int>, cooldown: Option<int>, wrong: seq<int>, clock: int) {
    && Rising(wrong) && (wrong != [] ==> wrong[|wrong| - 1] <= clock)
    && |failures| <= |wrong| && failures == wrong[|wrong| - |failures|..]
    && (forall i :: 0 <= i < |wrong| - |failures| ==> wrong[i] + FAILURE_WINDOW_MS <= clock)
    && (cooldown.None? ==> |failures| < MAX_FAILURES)
    && (cooldown.Some? ==> wrong != [] && cooldown.value == wrong[|wrong| - 1] + COOLDOWN_MS)
  }

  lemma PruneTracks(failures: seq<int>, cooldown: Option<int>, wrong: seq<int>, clock: int, now: int)
    requires Tracks(failures, cooldown, wrong, clock) && clock <= now
    ensures Tracks(Recent(failures, now), cooldown, wrong, now)
  {
    assert Rising(failures);
    var k := RecentAreLast(failures, now);
    var dropped: nat := |wrong| - |failures|;
    assert failures[k..] == wrong[dropped + k..];
    forall i | 0 <= i < |wrong| - |Recent(failures, now)| ensures wrong[i] + FAILURE_WINDOW_MS <= now {
      if i >= dropped { assert wrong[i] == failures[i - dropped]; }
    }
  }

  /** When the cooldown is over everything before it is a window old. */
  lemma CooldownOver(failures: seq<int>, cooldown: Option<int>, wrong: seq<int>, now: int)
    requires Tracks(failures, cooldown, wrong, now) && cooldown.Some? && cooldown.value <= now
    ensures Tracks([], None, wrong, now)
  {
    assert wrong[|wrong|..] == [];
    assert forall i :: 0 <= i < |wrong| ==> wrong[i] <= wrong[|wrong| - 1];
  }

  /** One more wrong PIN, compared while no cooldown runs: the fifth before it is a window old. */
  lemma FailureSpaced(failures: seq<int>, wrong: seq<int>, now: int)
    requires Tracks(failures, None, wrong, now) && Spaced(wrong)
    ensures Spaced(wrong + [now])
  {
    var more := wrong + [now];
    forall i | 0 <= i && i + MAX_FAILURES < |more| ensures more[i + MAX_FAILURES] >= more[i] + FAILURE_WINDOW_MS {
      if i + MAX_FAILURES == |wrong| { assert wrong[i] + FAILURE_WINDOW_MS <= now; }
    }
  }

  lemma FailureTracks(failures: seq<int>, wrong: seq<int>, now: int, cooldown: Option<int>)
    requires Tracks(failures, None, wrong, now)
    requires cooldown == if |failures| + 1 < MAX_FAILURES then None else Some(now + COOLDOWN_MS)
    ensures Tracks(failures + [now], cooldown, wrong + [now], now)
  {
    hide Spaced, Recent;
    var more := wrong + [now];
    LastOfMore(failures, wrong, now);
    RisingMore(wrong, now);
    forall i | 0 <= i < |more| - |failures + [now]| ensures more[i] + FAILURE_WINDOW_MS <= now { assert more[i] == wrong[i]; }
  }

  lemma LastOfMore(failures: seq<int>, wrong: seq<int>, now: int)
    requires |failures| <= |wrong| && failures == wrong[|wrong| - |failures|..]
    ensures failures + [now] == (wrong + [now])[|wrong| - |failures|..]
  {
  }

  lemma RisingMore(wrong: seq<int>, now: int)
    requires Rising(wrong) && (wrong != [] ==> wrong[|wrong| - 1] <= now)
    ensures Rising(wrong + [now])
  {
  }

  /** In any half-open window there are at most five wrong PINs. */
  lemma AtMostFivePerWindow(wrong: seq<int>, from: int)
    requires Rising(wrong) && Spaced(wrong)
    ensures |InWindow(wrong, from)| <= MAX_FAILURES
  {
    var inside := InWindow(wrong, from);
    if inside != {} {
      var i :| i in inside;
      var first := FirstFrom(wrong, from, i);
      forall k | first + MAX_FAILURES <= k < |wrong| ensures wrong[k] >= from + FAILURE_WINDOW_MS {
        assert wrong[k] >= wrong[first + MAX_FAILURES] >= wrong[first] + FAILURE_WINDOW_MS;
      }
      var five := {first, first + 1, first + 2, first + 3, first + 4};
      assert inside <= five;
      SubsetSize(inside, five);
    }
  }

  lemma {:induction false} FirstFrom(wrong: seq<int>, from: int, i: nat) returns (first: nat)
    requires Rising(wrong) && i < |wrong| && wrong[i] >= from
    ensures first <= i && wrong[first] >= from && forall k :: 0 <= k < first ==> wrong[k] < from
    decreases i
  {
    if i > 0 && wrong[i - 1] >= from { first := FirstFrom(wrong, from, i - 1); } else { first := i; }
  }

  // ---- Runs of attempts ----

  /** An attempt to link: whether the PIN was right, and when it came. */
  datatype Attempt = Attempt(right: bool, at: int)

  datatype Limiter = Limiter(failures: seq<int>, cooldownUntil: Option<int>)

  /** The attempt is turned away before its PIN is compared. */
  predicate Cooling(l: Limiter, now: int) {
    l.cooldownUntil.Some? && now < l.cooldownUntil.value
  }

  /** The failures that count against a PIN about to be compared. */
  function Counted(l: Limiter, now: int): (r: seq<int>)
    ensures |r| <= |l.failures|
  {
    if l.cooldownUntil.Some? then [] else Recent(l.failures, now)
  }

  /** A right PIN forgets the failures, whether or not a token can be issued for it. */
  function After(l: Limiter, a: Attempt): Limiter {
    if Cooling(l, a.at) then Limiter(Recent(l.failures, a.at), l.cooldownUntil)
    else if a.right then Limiter([], None)
    else if |Counted(l, a.at)| + 1 < MAX_FAILURES then Limiter(Counted(l, a.at) + [a.at], None)
    else if a.at + COOLDOWN_MS > LAST_DATE then Limiter(Counted(l, a.at), None)
    else Limiter(Counted(l, a.at) + [a.at], Some(a.at + COOLDOWN_MS))
  }

  /** A wrong PIN was compared with the right one. */
  predicate WrongCompared(l: Limiter, a: Attempt) {
    !Cooling(l, a.at) && !a.right
  }

  /** A right PIN was compared, but its token would expire after the last date: no link was accepted. */
  predicate RightFaulted(l: Limiter, a: Attempt) {
    !Cooling(l, a.at) && a.right && a.at + TOKEN_TTL_MS > LAST_DATE
  }

  /** A fifth wrong PIN was compared, but its cooldown would end after the last date. */
  predicate CooldownFaulted(l: Limiter, a: Attempt) {
    WrongCompared(l, a) && |Counted(l, a.at)| + 1 >= MAX_FAILURES && a.at + COOLDOWN_MS > LAST_DATE
  }

  predicate LinkAccepted(l: Limiter, a: Attempt) {
    !Cooling(l, a.at) && a.right && a.at + TOKEN_TTL_MS <= LAST_DATE
  }

  function State(attempts: seq<Attempt>): Limiter {
    if attempts == [] then Limiter([], None)
    else After(State(attempts[..|attempts| - 1]), attempts[|attempts| - 1])
  }

  /** The times of all wrong PINs compared since the last accepted link. */
  function Wrong(attempts: seq<Attempt>): seq<int> {
    if attempts == [] then []
    else
      var init, a := attempts[..|attempts| - 1], attempts[|attempts| - 1];
      if LinkAccepted(State(init), a) then []
      else Wrong(init) + if WrongCompared(State(init), a) then [a.at] else []
  }

  /** The clock does not run back and never passes an instant. */
  predicate Until(attempts: seq<Attempt>, last: int) {
    && (forall i, j :: 0 <= i < j < |attempts| ==> attempts[i].at <= attempts[j].at)
    && forall i :: 0 <= i < |attempts| ==> attempts[i].at <= last
  }

  /** No right PIN went without its token. */
  predicate NoneFaulted(attempts: seq<Attempt>) {
    attempts == [] ||
    (NoneFaulted(attempts[..|attempts| - 1])
     && !RightFaulted(State(attempts[..|attempts| - 1]), attempts[|attempts| - 1]))
  }

  /** In every half-open window at most five wrong PINs were compared since the last accepted link. */
  ghost predicate Limited(attempts: seq<Attempt>) {
    forall from: int :: |InWindow(Wrong(attempts), from)| <= MAX_FAILURES
  }

  function InWindow(times: seq<int>, from: int): set<nat> {
    set i: nat | i < |times| && from <= times[i] < from + FAILURE_WINDOW_MS
  }

  lemma RunOn(attempts: seq<Attempt>, a: Attempt)
    ensures State(attempts + [a]) == After(State(attempts), a)
    ensures Wrong(attempts + [a]) == if LinkAccepted(State(attempts), a) then []
                                     else Wrong(attempts) + if WrongCompared(State(attempts), a) then [a.at] else []
    ensures NoneFaulted(attempts + [a]) <==> NoneFaulted(attempts) && !RightFaulted(State(attempts), a)
  {
    assert (attempts + [a])[..|attempts|] == attempts;
  }

  lemma TracksLater(l: Limiter, wrong: seq<int>, clock: int, now: int)
    requires Tracks(l.failures, l.cooldownUntil, wrong, clock) && clock <= now
    ensures Tracks(l.failures, l.cooldownUntil, wrong, now)
  {
  }

  /** One attempt on a limiter that tracks what it compared. */
  lemma AttemptTracks(l: Limiter, wrong: seq<int>, a: Attempt)
    requires Tracks(l.failures, l.cooldownUntil, wrong, a.at) && Spaced(wrong)
    requires a.at + COOLDOWN_MS <= LAST_DATE && !RightFaulted(l, a)
    ensures var next := After(l, a);
      var more := if LinkAccepted(l, a) then [] else wrong + if WrongCompared(l, a) then [a.at] else [];
      Tracks(next.failures, next.cooldownUntil, more, a.at) && Spaced(more)
  {
    hide Tracks, Recent, Spaced;
    PruneTracks(l.failures, l.cooldownUntil, wrong, a.at, a.at);
    assert wrong + [] == wrong;
    if l.cooldownUntil.Some? && !Cooling(l, a.at) { CooldownOver(Recent(l.failures, a.at), l.cooldownUntil, wrong, a.at); }
    if WrongCompared(l, a) {
      FailureSpaced(Counted(l, a.at), wrong, a.at);
      FailureTracks(Counted(l, a.at), wrong, a.at, After(l, a).cooldownUntil);
    }
    NothingTracks(a.at);
  }

  lemma NothingTracks(now: int)
    ensures Tracks([], None, [], now) && Spaced([])
  {
  }

  lemma {:induction false} RunTracks(attempts: seq<Attempt>, last: int)
    requires Until(attempts, last) && NoneFaulted(attempts) && last + COOLDOWN_MS <= LAST_DATE
    ensures Tracks(State(attempts).failures, State(attempts).cooldownUntil, Wrong(attempts), last) && Spaced(Wrong(attempts))
  {
    hide Tracks, Spaced, After;
    if attempts == [] {
      NothingTracks(last);
    } else {
      var init, a := attempts[..|attempts| - 1], attempts[|attempts| - 1];
      RunTracks(init, a.at);
      AttemptTracks(State(init), Wrong(init), a);
      TracksLater(State(attempts), Wrong(attempts), a.at, last);
    }
  }

  /** Before the last minute of the clock the limit holds as long as no right PIN goes without its token. */
  lemma LimitHolds(attempts: seq<Attempt>, last: int)
    requires Until(attempts, last) && NoneFaulted(attempts) && last + COOLDOWN_MS <= LAST_DATE
    ensures Limited(attempts)
  {
    RunTracks(attempts, last);
    forall from: int ensures |InWindow(Wrong(attempts), from)| <= MAX_FAILURES { AtMostFivePerWindow(Wrong(attempts), from); }
  }

  /** While tokens can still be issued no right PIN goes without one. */
  lemma {:induction false} EarlyNeverFaults(attempts: seq<Attempt>, last: int)
    requires Until(attempts, last) && last + TOKEN_TTL_MS <= LAST_DATE
    ensures NoneFaulted(attempts)
  {
    hide State;
    if attempts != [] { EarlyNeverFaults(attempts[..|attempts| - 1], last); }
  }

  // ---- Where the limit does not hold ----

  /** Four wrong PINs and a right one, again and again, all at one instant. */
  function Rounds(now: int, rounds: nat): seq<Attempt> {
    if rounds == 0 then [] else FourWrong(Rounds(now, rounds - 1), now) + [Attempt(true, now)]
  }

  function FourWrong(attempts: seq<Attempt>, now: int): seq<Attempt> {
    attempts + [Attempt(false, now)] + [Attempt(false, now)] + [Attempt(false, now)] + [Attempt(false, now)]
  }

  function Repeated(now: int, n: nat): (r: seq<int>)
    ensures |r| == n && forall i :: 0 <= i < n ==> r[i] == now
  {
    seq(n, _ => now)
  }

  /** One more wrong PIN of a row that sets no cooldown. */
  lemma OneMore(attempts: seq<Attempt>, now: int, n: nat)
    requires State(attempts) == Limiter(Repeated(now, n), None)
    requires n + 1 < MAX_FAILURES || (n + 1 == MAX_FAILURES && now + COOLDOWN_MS > LAST_DATE)
    ensures State(attempts + [Attempt(false, now)]) == Limiter(Repeated(now, if n + 1 < MAX_FAILURES then n + 1 else n), None)
    ensures Wrong(attempts + [Attempt(false, now)]) == Wrong(attempts) + [now]
    ensures NoneFaulted(attempts + [Attempt(false, now)]) <==> NoneFaulted(attempts)
  {
    hide State, Wrong, Recent, NoneFaulted;
    RunOn(attempts, Attempt(false, now));
    RecentRepeated(now, n);
    assert Repeated(now, n) + [now] == Repeated(now, n + 1);
  }

  lemma {:induction false} RecentRepeated(now: int, n: nat)
    ensures Recent(Repeated(now, n), now) == Repeated(now, n)
  {
    if n > 0 {
      RecentRepeated(now, n - 1);
      assert Repeated(now, n)[..n - 1] == Repeated(now, n - 1);
      assert Repeated(now, n) == Repeated(now, n - 1) + [now];
    }
  }

  lemma FourMore(attempts: seq<Attempt>, now: int)
    requires State(attempts) == Limiter([], None)
    ensures State(FourWrong(attempts, now)) == Limiter(Repeated(now, 4), None)
    ensures Wrong(FourWrong(attempts, now)) == Wrong(attempts) + [now] + [now] + [now] + [now]
  {
    hide State, Wrong, NoneFaulted;
    var w := Attempt(false, now);
    assert Repeated(now, 0) == [];
    OneMore(attempts, now, 0);
    OneMore(attempts + [w], now, 1);
    OneMore(attempts + [w] + [w], now, 2);
    OneMore(attempts + [w] + [w] + [w], now, 3);
  }

  lemma FourRepeated(now: int, n: nat)
    ensures Repeated(now, n) + [now] + [now] + [now] + [now] + [] == Repeated(now, n + 4)
  {
  }

  /**
   * A right PIN whose token would expire after the last date forgets the failures without accepting a link: at any such
   * instant any number of wrong PINs can be compared, four at a time.
   */
  lemma {:induction false} FaultedRightPinForgets(now: int, rounds: nat)
    requires now + TOKEN_TTL_MS > LAST_DATE
    ensures Until(Rounds(now, rounds), now) && State(Rounds(now, rounds)) == Limiter([], None)
    ensures Wrong(Rounds(now, rounds)) == Repeated(now, 4 * rounds)
  {
    hide State, Wrong, FourWrong, NoneFaulted, Repeated, Until;
    if rounds == 0 {
      StartOfRun();
    } else {
      var before := Rounds(now, rounds - 1);
      FaultedRightPinForgets(now, rounds - 1);
      FourMore(before, now);
      UntilFour(before, now);
      RunOn(FourWrong(before, now), Attempt(true, now));
      FourRepeated(now, 4 * (rounds - 1));
    }
  }

  lemma UntilFour(attempts: seq<Attempt>, now: int)
    requires Until(attempts, now)
    ensures Until(FourWrong(attempts, now) + [Attempt(true, now)], now)
  {
    var w := Attempt(false, now);
    UntilSnoc(attempts, w);
    UntilSnoc(attempts + [w], w);
    UntilSnoc(attempts + [w] + [w], w);
    UntilSnoc(attempts + [w] + [w] + [w], w);
    UntilSnoc(FourWrong(attempts, now), Attempt(true, now));
  }

  lemma UntilSnoc(attempts: seq<Attempt>, a: Attempt)
    requires Until(attempts, a.at)
    ensures Until(attempts + [a], a.at)
  {
  }

  lemma StartOfRun()
    ensures State([]) == Limiter([], None) && Wrong([]) == [] && NoneFaulted([])
    ensures forall now :: Until([], now) && Repeated(now, 0) == []
  {
  }

  /** Wrong PINs at one instant. */
  function OnlyWrong(now: int, n: nat): (r: seq<Attempt>)
    ensures |r| == n && forall i :: 0 <= i < n ==> r[i] == Attempt(false, now)
  {
    if n == 0 then [] else OnlyWrong(now, n - 1) + [Attempt(false, now)]
  }

  /**
   * In the last minute of the clock a cooldown would end after the last date and is not set, so any number of wrong PINs
   * is compared at one instant.
   */
  lemma {:induction false} ComparedAtTheEndOfTheClock(now: int, n: nat)
    requires now + COOLDOWN_MS > LAST_DATE
    ensures Until(OnlyWrong(now, n), now) && NoneFaulted(OnlyWrong(now, n)) && Wrong(OnlyWrong(now, n)) == Repeated(now, n)
    ensures State(OnlyWrong(now, n)) == Limiter(Repeated(now, if n < MAX_FAILURES then n else MAX_FAILURES - 1), None)
  {
    hide State, Wrong, NoneFaulted, Recent;
    if n == 0 {
      StartOfRun();
    } else {
      ComparedAtTheEndOfTheClock(now, n - 1);
      OneMore(OnlyWrong(now, n - 1), now, if n - 1 < MAX_FAILURES then n - 1 else MAX_FAILURES - 1);
      assert Repeated(now, n - 1) + [now] == Repeated(now, n);
    }
  }

  lemma SixAtOnce(attempts: seq<Attempt>, now: int, n: nat)
    requires Wrong(attempts) == Repeated(now, n) && n > MAX_FAILURES
    ensures !Limited(attempts)
  {
    var six := {0, 1, 2, 3, 4, 5};
    assert |six| == 6;
    assert six <= InWindow(Wrong(attempts), now);
    SubsetSize(six, InWindow(Wrong(attempts), now));
  }

  /**
   * Every run whose clock stays at or before an instant keeps the limit exactly if a token issued at that instant would
   * still expire by the last date.
   */
  lemma LimitedExactly(last: int)
    ensures (forall attempts :: Until(attempts, last) ==> Limited(attempts)) <==> last + TOKEN_TTL_MS <= LAST_DATE
  {
    if last + TOKEN_TTL_MS <= LAST_DATE {
      forall attempts | Until(attempts, last) ensures Limited(attempts) {
        EarlyNeverFaults(attempts, last);
        LimitHolds(attempts, last);
      }
    } else {
      FaultedRightPinForgets(last, 2);
      SixAtOnce(Rounds(last, 2), last, 8);
    }
  }

  /** Among runs in which no right PIN went without its token, exactly if a cooldown set then would end by the last date. */
  lemma LimitedExactlyUnfaulted(last: int)
    ensures (forall attempts :: Until(attempts, last) && NoneFaulted(attempts) ==> Limited(attempts))
      <==> last + COOLDOWN_MS <= LAST_DATE
  {
    if last + COOLDOWN_MS <= LAST_DATE {
      forall attempts | Until(attempts, last) && NoneFaulted(attempts) ensures Limited(attempts) { LimitHolds(attempts, last); }
    } else {
      ComparedAtTheEndOfTheClock(last, 6);
      SixAtOnce(OnlyWrong(last, 6), last, 6);
    }
  }

  // ---- Tokens ----

  function Keep(tokens: seq<Token>, p: Token -> bool): (r: seq<Token>)
    ensures forall t :: t in r <==> t in tokens && p(t)
  {
    if tokens == [] then []
    else Keep(tokens[..|tokens| - 1], p) + if p(tokens[|tokens| - 1]) then [tokens[|tokens| - 1]] else []
  }

  lemma KeepSnoc(tokens: seq<Token>, t: Token, p: Token -> bool)
    ensures Keep(tokens + [t], p) == Keep(tokens, p) + if p(t) then [t] else []
    ensures Keep([], p) == []
  {
    assert (tokens + [t])[..|tokens|] == tokens;
  }

  /** What is kept of a part is kept of the whole, in its order; of one token it is the token or nothing. */
  lemma {:induction false} KeepConcat(a: seq<Token>, b: seq<Token>, p: Token -> bool)
    ensures Keep(a + b, p) == Keep(a, p) + Keep(b, p)
    ensures |b| == 1 ==> Keep(b, p) == if p(b[0]) then b else []
  {
    hide Keep;
    if b == [] {
      assert a + b == a && Keep(a, p) + [] == Keep(a, p);
      KeepSnoc(a, Token("", "", Ide, "", 0), p);
    } else {
      var init, last := b[..|b| - 1], b[|b| - 1];
      KeepConcat(a, init, p);
      assert a + b == (a + init) + [last] && b == init + [last];
      KeepSnoc(a + init, last, p);
      KeepSnoc(init, last, p);
      assert |b| == 1 ==> init == [];
    }
  }

  function CountRole(tokens: seq<Token>, role: Role): (n: nat)
    ensures n <= |tokens|
  {
    if tokens == [] then 0
    else CountRole(tokens[..|tokens| - 1], role) + if tokens[|tokens| - 1].role == role then 1 else 0
  }

  function Unexpired(tokens: seq<Token>, now: int): (r: seq<Token>)
    ensures forall t :: t in r <==> t in tokens && now < t.expiresAt
  {
    Keep(tokens, (t: Token) => t.expiresAt > now)
  }

  /** The position of the oldest token of a role. */
  function Oldest(tokens: seq<Token>, role: Role): (i: nat)
    ensures i <= |tokens| && (i < |tokens| ==> tokens[i].role == role) && forall j :: 0 <= j < i ==> tokens[j].role != role
    decreases |tokens|
  {
    if tokens == [] then 0
    else
      var i := Oldest(tokens[..|tokens| - 1], role);
      if i < |tokens| - 1 || tokens[|tokens| - 1].role == role then i else |tokens|
  }

  /** Without the oldest token of a role, if the role has as many as it may. */
  function Roomy(tokens: seq<Token>, role: Role): seq<Token> {
    var i := Oldest(tokens, role);
    if CountRole(tokens, role) < MAX_ACTIVE_TOKENS_PER_ROLE || i == |tokens| then tokens
    else tokens[..i] + tokens[i + 1..]
  }

  ghost predicate Bounded(tokens: seq<Token>) {
    forall role :: CountRole(tokens, role) <= MAX_ACTIVE_TOKENS_PER_ROLE
  }

  lemma {:induction false} CountConcat(a: seq<Token>, b: seq<Token>, role: Role)
    ensures CountRole(a + b, role) == CountRole(a, role) + CountRole(b, role)
  {
    if b == [] {
      assert a + b == a;
    } else {
      CountConcat(a, b[..|b| - 1], role);
      assert (a + b)[..|a + b| - 1] == a + b[..|b| - 1];
    }
  }

  lemma CountSnoc(tokens: seq<Token>, t: Token, role: Role)
    ensures CountRole(tokens + [t], role) == CountRole(tokens, role) + if t.role == role then 1 else 0
  {
    assert (tokens + [t])[..|tokens|] == tokens;
  }

  lemma {:induction false} CountKept(tokens: seq<Token>, p: Token -> bool, role: Role)
    ensures CountRole(Keep(tokens, p), role) <= CountRole(tokens, role)
  {
    if tokens != [] {
      var init, last := tokens[..|tokens| - 1], tokens[|tokens| - 1];
      assert Keep(tokens, p) == Keep(init, p) + if p(last) then [last] else [];
      assert tokens == init + [last];
      hide Keep, CountRole;
      CountSnoc(init, last, role);
      CountKept(init, p, role);
      if p(last) { CountSnoc(Keep(init, p), last, role); } else { assert Keep(init, p) + [] == Keep(init, p); }
    }
  }

  lemma KeepBounded(tokens: seq<Token>, p: Token -> bool)
    requires Bounded(tokens)
    ensures Bounded(Keep(tokens, p))
  {
    forall role ensures CountRole(Keep(tokens, p), role) <= MAX_ACTIVE_TOKENS_PER_ROLE { CountKept(tokens, p, role); }
  }

  lemma {:induction false} CountsSomewhere(tokens: seq<Token>, role: Role)
    requires CountRole(tokens, role) > 0
    ensures Oldest(tokens, role) < |tokens|
  {
    var init, last := tokens[..|tokens| - 1], tokens[|tokens| - 1];
    if last.role != role { CountsSomewhere(init, role); }
  }

  /** Taking out one token of a role. */
  lemma CountWithout(tokens: seq<Token>, i: nat, role: Role)
    requires i < |tokens|
    ensures CountRole(tokens[..i] + tokens[i + 1..], role) == CountRole(tokens, role) - if tokens[i].role == role then 1 else 0
  {
    assert tokens == tokens[..i] + ([tokens[i]] + tokens[i + 1..]);
    CountConcat(tokens[..i], [tokens[i]] + tokens[i + 1..], role);
    CountConcat([tokens[i]], tokens[i + 1..], role);
    CountConcat(tokens[..i], tokens[i + 1..], role);
    assert [tokens[i]][..0] == [];
  }

  /** Room is made only where there is none, and only by the oldest token of the role. */
  lemma RoomyExactly(tokens: seq<Token>, role: Role) returns (i: nat)
    ensures i <= |tokens| && Roomy(tokens, role) == tokens[..i] + if i < |tokens| then tokens[i + 1..] else []
    ensures i < |tokens| <==> CountRole(tokens, role) >= MAX_ACTIVE_TOKENS_PER_ROLE
    ensures i < |tokens| ==> tokens[i].role == role && forall t :: t in tokens[..i] ==> t.role != role
  {
    i := Oldest(tokens, role);
    if CountRole(tokens, role) < MAX_ACTIVE_TOKENS_PER_ROLE {
      i := |tokens|;
      assert tokens[..i] + [] == tokens;
    } else {
      CountsSomewhere(tokens, role);
    }
  }

  lemma RoomyCounts(tokens: seq<Token>, role: Role)
    requires Bounded(tokens)
    ensures CountRole(Roomy(tokens, role), role) < MAX_ACTIVE_TOKENS_PER_ROLE && Bounded(Roomy(tokens, role))
  {
    hide CountRole, Oldest;
    if CountRole(tokens, role) >= MAX_ACTIVE_TOKENS_PER_ROLE {
      CountsSomewhere(tokens, role);
      forall r ensures CountRole(Roomy(tokens, role), r) <= MAX_ACTIVE_TOKENS_PER_ROLE {
        CountWithout(tokens, Oldest(tokens, role), r);
        assert CountRole(tokens, r) <= MAX_ACTIVE_TOKENS_PER_ROLE;
      }
      CountWithout(tokens, Oldest(tokens, role), role);
      assert CountRole(tokens, role) <= MAX_ACTIVE_TOKENS_PER_ROLE;
    }
  }

  lemma AddBounded(tokens: seq<Token>, t: Token)
    requires Bounded(tokens) && CountRole(tokens, t.role) < MAX_ACTIVE_TOKENS_PER_ROLE
    ensures Bounded(tokens + [t])
  {
    forall role ensures CountRole(tokens + [t], role) <= MAX_ACTIVE_TOKENS_PER_ROLE {
      CountConcat(tokens, [t], role);
      assert CountRole(tokens, role) <= MAX_ACTIVE_TOKENS_PER_ROLE;
      assert [t][..0] == [];
    }
  }

  function Find(tokens: seq<Token>, value: string): (r: Option<Token>)
    ensures r.Some? ==> r.value in tokens && r.value.value == value
    ensures r.None? ==> forall t :: t in tokens ==> t.value != value
    decreases |tokens|
  {
    if tokens == [] then None else if tokens[0].value == value then Some(tokens[0]) else Find(tokens[1..], value)
  }

  class LinkAuthenticator {
    const sessionId: string
    const bridgeInstanceId: string
    const pin: string
    var tokens: seq<Token>
    var failures: seq<int>
    var cooldownUntil: Option<int>
    // Every attempt so far.
    ghost var attempts: seq<Attempt>
    ghost var clock: int

    ghost predicate Valid()
      reads this
    {
      Bounded(tokens) && Until(attempts, clock) && Limiter(failures, cooldownUntil) == State(attempts)
    }

    constructor (sessionId: string, bridgeInstanceId: string, pin: string, now: int)
      ensures Valid() && tokens == [] && failures == [] && cooldownUntil == None && attempts == [] && clock == now
      ensures this.sessionId == sessionId && this.bridgeInstanceId == bridgeInstanceId && this.pin == pin
    {
      this.sessionId, this.bridgeInstanceId, this.pin := sessionId, bridgeInstanceId, pin;
      tokens, failures, cooldownUntil, attempts, clock := [], [], None, [], now;
    }

    /** Expired tokens go, the oldest of the role makes room if it must, and the new token is the youngest. */
    method IssueToken(role: Role, now: int, value: string) returns (token: Option<Token>)
      requires Bounded(tokens)
      modifies this`tokens
      ensures Bounded(tokens)
      ensures token == if now + TOKEN_TTL_MS > LAST_DATE then None
                       else Some(Token(value, sessionId, role, bridgeInstanceId, now + TOKEN_TTL_MS))
      ensures tokens == Roomy(Unexpired(old(tokens), now), role) + if token.Some? then [token.value] else []
    {
      KeepBounded(tokens, (t: Token) => t.expiresAt > now);
      tokens := Unexpired(tokens, now);
      ghost var unexpired := tokens;
      RoomyCounts(tokens, role);
      var activeForRole := CountRole(tokens, role);
      hide Bounded, Unexpired, CountRole, Oldest;
      while activeForRole >= MAX_ACTIVE_TOKENS_PER_ROLE
        invariant activeForRole == CountRole(tokens, role)
        invariant tokens == unexpired || (tokens == Roomy(unexpired, role) && activeForRole < MAX_ACTIVE_TOKENS_PER_ROLE)
        decreases activeForRole
      {
        CountsSomewhere(tokens, role);
        var oldestIndex := Oldest(tokens, role);
        CountWithout(tokens, oldestIndex, role);
        tokens := tokens[..oldestIndex] + tokens[oldestIndex + 1..];
        activeForRole := activeForRole - 1;
      }
      if now + TOKEN_TTL_MS > LAST_DATE { return None; }
      token := Some(Token(value, sessionId, role, bridgeInstanceId, now + TOKEN_TTL_MS));
      AddBounded(tokens, token.value);
      tokens := tokens + [token.value];
    }

    /**
     * `attemptLink` on a clock that does not run back. A wrong PIN is compared only outside a cooldown; the fifth one in
     * the window starts one. At the end of the clock a right PIN gets no token and a fifth failure no cooldown.
     */
    method AttemptLink(attempted: string, role: Role, now: int, value: string) returns (outcome: Outcome)
      requires Valid() && clock <= now <= LAST_DATE
      modifies this
      ensures Valid() && clock == now && attempts == old(attempts) + [Attempt(attempted == pin, now)]
      ensures var l, a := State(old(attempts)), Attempt(attempted == pin, now);
        && (Cooling(l, now) ==> outcome == RateLimited(l.cooldownUntil.value))
        && (outcome.Accepted? <==> LinkAccepted(l, a))
        && (outcome.Rejected? <==> WrongCompared(l, a) && |Counted(l, now)| + 1 < MAX_FAILURES)
        && (outcome.Faulted? <==> RightFaulted(l, a) || CooldownFaulted(l, a))
        && (outcome.RateLimited? && !Cooling(l, now) ==> outcome.retryAt == now + COOLDOWN_MS)
      ensures outcome.Accepted? ==>
        && outcome.token == Token(value, sessionId, role, bridgeInstanceId, now + TOKEN_TTL_MS)
        && tokens == Roomy(Unexpired(old(tokens), now), role) + [outcome.token]
      ensures attempted != pin || Cooling(State(old(attempts)), now) ==> tokens == old(tokens)
    {
      hide Recent, Bounded, Roomy, Unexpired, State;
      RunOn(attempts, Attempt(attempted == pin, now));
      clock, attempts := now, attempts + [Attempt(attempted == pin, now)];
      failures := Recent(failures, now);
      if cooldownUntil.Some? {
        if now < cooldownUntil.value { return RateLimited(cooldownUntil.value); }
        cooldownUntil := None;
        failures := [];
      }
      if attempted != pin {
        if |failures| + 1 < MAX_FAILURES {
          failures := failures + [now];
          return Rejected;
        }
        if now + COOLDOWN_MS > LAST_DATE { return Faulted; }
        failures := failures + [now];
        cooldownUntil := Some(now + COOLDOWN_MS);
        return RateLimited(now + COOLDOWN_MS);
      }
      failures := [];
      var token := IssueToken(role, now, value);
      outcome := if token.Some? then Accepted(token.value) else Faulted;
    }

    /** `issueTrustedToken` */
    method IssueTrustedToken(now: int, value: string) returns (token: Option<Token>)
      requires Valid()
      modifies this`tokens
      ensures Valid() && tokens == Roomy(Unexpired(old(tokens), now), Ide) + if token.Some? then [token.value] else []
      ensures token == if now + TOKEN_TTL_MS > LAST_DATE then None
                       else Some(Token(value, sessionId, Ide, bridgeInstanceId, now + TOKEN_TTL_MS))
    {
      hide Bounded, Roomy, Unexpired, State;
      token := IssueToken(Ide, now, value);
    }

    /** A token is accepted for its own session, role and bridge instance until it expires, is revoked or is evicted. */
    method ValidateToken(session: string, role: Role, value: string, instance: string, now: int) returns (r: Validation)
      requires Valid()
      modifies this`tokens
      ensures Valid() && tokens == Unexpired(old(tokens), now)
      ensures var found := Find(Unexpired(old(tokens), now), value);
        r == if found.None? || found.value.sessionId != session || found.value.role != role then TokenRejected
             else if found.value.bridgeInstanceId == instance then TokenAccepted else InstanceChanged
      ensures r.TokenAccepted? ==> exists t :: t in old(tokens) && t == Token(value, session, role, instance, t.expiresAt) && t.expiresAt > now
    {
      hide Bounded, State;
      KeepBounded(tokens, (t: Token) => t.expiresAt > now);
      tokens := Unexpired(tokens, now);
      var authorized := Find(tokens, value);
      if authorized.None? || authorized.value.sessionId != session || authorized.value.role != role { return TokenRejected; }
      if authorized.value.expiresAt <= now { return TokenRejected; }
      return if authorized.value.bridgeInstanceId == instance then TokenAccepted else InstanceChanged;
    }

    method RevokeToken(value: string)
      requires Valid()
      modifies this`tokens
      ensures Valid() && tokens == Keep(old(tokens), (t: Token) => t.value != value)
    {
      hide Bounded, State;
      KeepBounded(tokens, (t: Token) => t.value != value);
      tokens := Keep(tokens, (t: Token) => t.value != value);
    }

    method RevokeRole(role: Role)
      requires Valid()
      modifies this`tokens
      ensures Valid() && tokens == Keep(old(tokens), (t: Token) => t.role != role)
    {
      hide Bounded, State;
      KeepBounded(tokens, (t: Token) => t.role != role);
      tokens := Keep(tokens, (t: Token) => t.role != role);
    }

    method RevokeAll()
      requires Valid()
      modifies this`tokens
      ensures Valid() && tokens == []
    {
      hide State;
      tokens := [];
    }
  }
}

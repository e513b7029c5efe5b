/** Runs of passing check-then-record pairs: what the cap bounds, and how tightly. */
module PolicyRuns {
  import opened Words
  import opened SpendPolicy

  /** A spend that was checked and recorded. */
  datatype Spend = Spend(rail: Rail, amount: u128, now: u64)

  function WindowAfter(w: Window, spends: seq<Spend>): Window {
    if spends == [] then w else
    var last := spends[|spends| - 1];
    WindowAfter(w, spends[..|spends| - 1]).Recorded(last.amount, last.now)
  }

  /** Each spend passed the check against the window it found. */
  predicate AllPass(policy: Policy, w: Window, spends: seq<Spend>) {
    spends == [] ||
    var init, last := spends[..|spends| - 1], spends[|spends| - 1];
    AllPass(policy, w, init) && Check(policy, WindowAfter(w, init), last.rail, last.amount, last.now).Ok?
  }

  function Total(spends: seq<Spend>): nat {
    if spends == [] then 0 else Total(spends[..|spends| - 1]) + spends[|spends| - 1].amount
  }

  /** What was spent at times in [from, to). */
  function TotalIn(spends: seq<Spend>, from: int, to: int): nat {
    if spends == [] then 0 else
    var last := spends[|spends| - 1];
    TotalIn(spends[..|spends| - 1], from, to) + if from <= last.now < to then last.amount else 0
  }

  /** The clock never steps back, and starts no earlier than the window. */
  predicate ClockAdvances(w: Window, spends: seq<Spend>) {
    && (forall i :: 0 <= i < |spends| ==> w.dayStart <= spends[i].now)
    && (forall i, j :: 0 <= i < j < |spends| ==> spends[i].now <= spends[j].now)
  }

  // ── One window ─────────────────────────────────────────────────────────────

  /** Where the current window began: the index of the spend that restarted it last, or 0. */
  function WindowBegan(w: Window, spends: seq<Spend>): (k: nat)
    ensures k <= |spends|
  {
    if spends == [] then 0 else
    var init, last := spends[..|spends| - 1], spends[|spends| - 1];
    if WindowAfter(w, init).Elapsed(last.now) then |init| else WindowBegan(w, init)
  }

  predicate EverRestarted(w: Window, spends: seq<Spend>) {
    spends != [] &&
    var init, last := spends[..|spends| - 1], spends[|spends| - 1];
    WindowAfter(w, init).Elapsed(last.now) || EverRestarted(w, init)
  }

  /** With a cap below 2^128 - 1, whatever the clock does: the recorded amount is exactly what was spent since
      the current window began (with what it held at the start, if it never restarted), and never exceeds the
      cap. */
  lemma {:induction false} SpentIsTheWindowsTotal(policy: Policy, w: Window, spends: seq<Spend>)
    requires policy.dailyCap < U128_MAX && w.spent <= policy.dailyCap && AllPass(policy, w, spends)
    ensures var carried: nat := if EverRestarted(w, spends) then 0 else w.spent;
            WindowAfter(w, spends).spent == carried + Total(spends[WindowBegan(w, spends)..])
    ensures WindowAfter(w, spends).spent <= policy.dailyCap
  {
    if spends == [] {
    } else {
      var init, last := spends[..|spends| - 1], spends[|spends| - 1];
      SpentIsTheWindowsTotal(policy, w, init);
      var k := WindowBegan(w, spends);
      var part := spends[k..];
      assert part[|part| - 1] == last;
      assert part[..|part| - 1] == init[k..];
    }
  }

  lemma Append(policy: Policy, w: Window, spends: seq<Spend>, s: Spend, from: int, to: int)
    ensures AllPass(policy, w, spends + [s]) <==>
              (AllPass(policy, w, spends) && Check(policy, WindowAfter(w, spends), s.rail, s.amount, s.now).Ok?)
    ensures WindowAfter(w, spends + [s]) == WindowAfter(w, spends).Recorded(s.amount, s.now)
    ensures Total(spends + [s]) == Total(spends) + s.amount
    ensures TotalIn(spends + [s], from, to) == TotalIn(spends, from, to) + if from <= s.now < to then s.amount else 0
  {
    assert (spends + [s])[..|spends|] == spends;
  }

  /** A run from an empty window that spends more than the cap within one window. */
  predicate Overspends(policy: Policy, spends: seq<Spend>) {
    AllPass(policy, Window(0, 0), spends) && Total(spends[WindowBegan(Window(0, 0), spends)..]) > policy.dailyCap
  }

  lemma {:induction false} PassedSpendsAreWithinTheCallLimit(policy: Policy, w: Window, spends: seq<Spend>)
    requires AllPass(policy, w, spends)
    ensures forall i :: 0 <= i < |spends| ==> spends[i].amount <= policy.maxPerCall && spends[i].rail in policy.allowRails
  {
    if spends != [] {
      PassedSpendsAreWithinTheCallLimit(policy, w, spends[..|spends| - 1]);
    }
  }

  lemma {:induction false} NothingSpentIsNothing(spends: seq<Spend>)
    requires forall i :: 0 <= i < |spends| ==> spends[i].amount == 0
    ensures Total(spends) == 0
  {
    if spends != [] {
      NothingSpentIsNothing(spends[..|spends| - 1]);
    }
  }

  /** Under a cap of 2^128 - 1 any number of allowed spends pass, all in the first window. */
  lemma {:induction false} SaturatedSpendsPass(policy: Policy, s: Spend, n: nat)
    requires policy.dailyCap == U128_MAX && s.amount <= policy.maxPerCall && s.rail in policy.allowRails && s.now == 0
    ensures var spends := seq(n, _ => s);
            && AllPass(policy, Window(0, 0), spends) && Total(spends) == n * s.amount
            && WindowAfter(Window(0, 0), spends).dayStart == 0 && WindowBegan(Window(0, 0), spends) == 0
  {
    if n > 0 {
      var init := seq((n - 1) as nat, _ => s);
      assert seq(n, _ => s)[..n - 1] == init;
      SaturatedSpendsPass(policy, s, n - 1);
      assert n * s.amount == (n - 1) * s.amount + s.amount;
    }
  }

  /** Exactly when the daily cap fails to cap a window: it is 2^128 - 1, where the sum saturates at the cap, and the
      policy lets anything at all be spent. */
  lemma CapFailsExactlyAtAllOnes(policy: Policy)
    ensures (exists spends :: Overspends(policy, spends)) <==>
              (policy.dailyCap == U128_MAX && policy.maxPerCall > 0 && policy.allowRails != [])
  {
    if policy.dailyCap == U128_MAX && policy.maxPerCall > 0 && policy.allowRails != [] {
      var s := Spend(policy.allowRails[0], 1, 0);
      var spends := seq(U128_MAX + 1, _ => s);
      SaturatedSpendsPass(policy, s, U128_MAX + 1);
      assert spends[0..] == spends;
      assert Overspends(policy, spends);
    }
    forall spends | Overspends(policy, spends)
      ensures policy.dailyCap == U128_MAX && policy.maxPerCall > 0 && policy.allowRails != []
    {
      var k := WindowBegan(Window(0, 0), spends);
      if policy.dailyCap < U128_MAX {
        SpentIsTheWindowsTotal(policy, Window(0, 0), spends);
      }
      PassedSpendsAreWithinTheCallLimit(policy, Window(0, 0), spends);
      if policy.maxPerCall == 0 || policy.allowRails == [] {
        NothingSpentIsNothing(spends[k..]);
      }
    }
  }

  // ── Intervals ──────────────────────────────────────────────────────────────

  /** How much can have been spent since `from` when the window started at `dayStart`: a full cap for the window
      running at `from`, one per day for the windows that started since, and what the current one holds. */
  function SpentSinceBound(cap: nat, w: Window, from: int): nat {
    if from <= w.dayStart then cap * (1 + (w.dayStart - from) / DAY_SECONDS) + w.spent else w.spent
  }

  lemma {:induction false} SpentSince(policy: Policy, w: Window, spends: seq<Spend>, from: int, to: int)
    requires policy.dailyCap < U128_MAX && w.spent <= policy.dailyCap
    requires AllPass(policy, w, spends) && ClockAdvances(w, spends)
    ensures TotalIn(spends, from, to) <= SpentSinceBound(policy.dailyCap, WindowAfter(w, spends), from)
    ensures spends == [] || w.dayStart <= WindowAfter(w, spends).dayStart <= spends[|spends| - 1].now
  {
    if spends == [] {
    } else {
      var init, last := spends[..|spends| - 1], spends[|spends| - 1];
      SpentSince(policy, w, init, from, to);
      SpentIsTheWindowsTotal(policy, w, init);
      SpentSinceStep(policy.dailyCap, WindowAfter(w, init), last, from);
      if last.now < from {
        NothingBefore(init, from, to, last.now);
      }
    }
  }

  /** A day or more later the bound's day count has grown. */
  lemma DaysGrow(cap: nat, early: nat, late: nat)
    requires late >= early + DAY_SECONDS
    ensures cap * (1 + late / DAY_SECONDS) >= cap * (1 + early / DAY_SECONDS) + cap
  {
    var before, after := early / DAY_SECONDS, late / DAY_SECONDS;
    assert after >= before + 1;
    MoreOfTheSame(cap, 1 + before, after - before);
  }

  lemma MoreOfTheSame(cap: nat, k: nat, d: nat)
    requires d >= 1
    ensures cap * (k + d) >= cap * k + cap
  {
    assert cap * (k + d) == cap * k + cap + cap * (d - 1);
  }

  /** One more spend: within the window it adds its amount; a restart is at least a day later, so the bound
      grows by a whole cap to cover the window it ends. */
  lemma SpentSinceStep(cap: nat, w: Window, last: Spend, from: int)
    requires w.spent <= cap && w.dayStart <= last.now
    requires SatAdd128(w.EffectiveSpent(last.now), last.amount) <= cap < U128_MAX
    ensures from <= last.now ==>
              SpentSinceBound(cap, w, from) + last.amount <= SpentSinceBound(cap, w.Recorded(last.amount, last.now), from)
  {
    if w.Elapsed(last.now) && from <= w.dayStart {
      DaysGrow(cap, w.dayStart - from, last.now - from);
    } else if w.Elapsed(last.now) && from <= last.now {
      MoreOfTheSame(cap, 0, 1 + (last.now - from) / DAY_SECONDS);
    }
  }

  lemma {:induction false} NothingBefore(spends: seq<Spend>, from: int, to: int, latest: u64)
    requires latest < from && forall i :: 0 <= i < |spends| ==> spends[i].now <= latest
    ensures TotalIn(spends, from, to) == 0
  {
    if spends != [] {
      NothingBefore(spends[..|spends| - 1], from, to, latest);
    }
  }

  /** In any interval of n whole days the spends that passed add up to at most n + 1 caps: so at most twice
      the cap in any sliding day. */
  lemma {:induction false} IntervalBound(policy: Policy, w: Window, spends: seq<Spend>, from: int, n: nat)
    requires policy.dailyCap < U128_MAX && w.spent <= policy.dailyCap
    requires AllPass(policy, w, spends) && ClockAdvances(w, spends)
    ensures TotalIn(spends, from, from + n * DAY_SECONDS) <= (n + 1) * policy.dailyCap
  {
    var to := from + n * DAY_SECONDS;
    if spends == [] {
      NoCapsIsNothing(policy.dailyCap, n);
    } else if spends[|spends| - 1].now >= to {
      DroppedSpend(policy, w, spends, from, to);
      IntervalBound(policy, w, spends[..|spends| - 1], from, n);
      hide *;
    } else {
      SpentSince(policy, w, spends, from, to);
      SpentIsTheWindowsTotal(policy, w, spends);
      BoundAtTheEnd(policy.dailyCap, WindowAfter(w, spends), from, n);
      hide *;
    }
  }

  lemma NoCapsIsNothing(cap: nat, n: nat)
    ensures 0 <= (n + 1) * cap
  {
  }

  /** A spend after the interval adds nothing to it. */
  lemma DroppedSpend(policy: Policy, w: Window, spends: seq<Spend>, from: int, to: int)
    requires spends != [] && spends[|spends| - 1].now >= to && AllPass(policy, w, spends) && ClockAdvances(w, spends)
    ensures AllPass(policy, w, spends[..|spends| - 1]) && ClockAdvances(w, spends[..|spends| - 1])
    ensures TotalIn(spends, from, to) == TotalIn(spends[..|spends| - 1], from, to)
  {
    hide Check, WindowAfter;
  }

  lemma BoundAtTheEnd(cap: nat, w: Window, from: int, n: nat)
    requires w.spent <= cap && w.dayStart < from + n * DAY_SECONDS
    ensures SpentSinceBound(cap, w, from) <= (n + 1) * cap
  {
    if from <= w.dayStart {
      var days := (w.dayStart - from) / DAY_SECONDS;
      assert days < n;
      MoreOfTheSame(cap, 1 + days, n - days);
    } else if n > 0 {
      MoreOfTheSame(cap, 0, n + 1);
    }
  }

  // ── The bound is tight ─────────────────────────────────────────────────────

  function Caps(cap: nat, n: nat): nat { n * cap }

  lemma OneMoreCap(cap: nat, n: nat)
    ensures Caps(cap, n + 1) == Caps(cap, n) + cap && Caps(cap, 1) == cap && Caps(0, n) == 0
  {
  }

  function Copies(s: Spend, m: nat): seq<Spend> { seq(m, _ => s) }

  /** The window a spend at `now` is added to. */
  function WindowAt(w: Window, now: u64): Window {
    if w.Elapsed(now) then Window(now, 0) else w
  }

  lemma SpendWithinTheCapPasses(policy: Policy, w: Window, s: Spend)
    requires s.amount <= policy.maxPerCall && s.rail in policy.allowRails
    requires WindowAt(w, s.now).spent + s.amount <= policy.dailyCap
    ensures Check(policy, w, s.rail, s.amount, s.now).Ok?
    ensures w.Recorded(s.amount, s.now) == Window(WindowAt(w, s.now).dayStart, WindowAt(w, s.now).spent + s.amount)
    ensures WindowAt(w.Recorded(s.amount, s.now), s.now) == w.Recorded(s.amount, s.now)
  {
  }

  /** Unit spends pass one after the other as long as they fit the cap. */
  lemma {:induction false} CopiesPass(policy: Policy, spends: seq<Spend>, s: Spend, m: nat, from: int, to: int)
    requires AllPass(policy, Window(0, 0), spends) && s.amount == 1 <= policy.maxPerCall && s.rail in policy.allowRails
    requires WindowAt(WindowAfter(Window(0, 0), spends), s.now).spent + m <= policy.dailyCap
    ensures var base := WindowAt(WindowAfter(Window(0, 0), spends), s.now);
            && AllPass(policy, Window(0, 0), spends + Copies(s, m))
            && (m > 0 ==> WindowAfter(Window(0, 0), spends + Copies(s, m)) == Window(base.dayStart, base.spent + m))
            && (m > 0 ==> WindowAt(WindowAfter(Window(0, 0), spends + Copies(s, m)), s.now) == WindowAfter(Window(0, 0), spends + Copies(s, m)))
            && TotalIn(spends + Copies(s, m), from, to) == TotalIn(spends, from, to) + if from <= s.now < to then m else 0
  {
    hide AllPass, WindowAfter, TotalIn, Total, Check, Window.Recorded, WindowAt;
    if m == 0 {
      assert spends + Copies(s, 0) == spends;
    } else {
      var before := spends + Copies(s, m - 1);
      assert before + [s] == spends + Copies(s, m);
      CopiesPass(policy, spends, s, m - 1, from, to);
      assert m == 1 ==> before == spends;
      SpendWithinTheCapPasses(policy, WindowAfter(Window(0, 0), before), s);
      Append(policy, Window(0, 0), before, s, from, to);
    }
  }

  /** The cap spent in units in the last second of the first day, and again at each following midnight. */
  function Greedy(cap: u128, rail: Rail, n: nat): seq<Spend>
    requires n * DAY_SECONDS <= U64_MAX
  {
    if n == 0 then Copies(Spend(rail, 1, DAY_SECONDS - 1), cap)
    else Greedy(cap, rail, n - 1) + Copies(Spend(rail, 1, n * DAY_SECONDS), cap)
  }

  lemma WindowsAreTakenInTurn(start: u64, spent: u128, now: u64)
    ensures now == start + DAY_SECONDS ==> WindowAt(Window(start, spent), now) == Window(now, 0)
    ensures now < start + DAY_SECONDS ==> WindowAt(Window(start, spent), now) == Window(start, spent)
  {
  }

  lemma {:induction false} GreedyPasses(policy: Policy, rail: Rail, n: nat, to: int)
    requires policy.maxPerCall > 0 && policy.dailyCap > 0 && rail in policy.allowRails
    requires n * DAY_SECONDS <= U64_MAX && n * DAY_SECONDS < to && DAY_SECONDS <= to
    ensures AllPass(policy, Window(0, 0), Greedy(policy.dailyCap, rail, n))
    ensures WindowAfter(Window(0, 0), Greedy(policy.dailyCap, rail, n)) == Window(n * DAY_SECONDS, policy.dailyCap)
    ensures TotalIn(Greedy(policy.dailyCap, rail, n), DAY_SECONDS - 1, to) == Caps(policy.dailyCap, n + 1)
  {
    var cap := policy.dailyCap;
    OneMoreCap(cap, n);
    if n == 0 {
      var first := Spend(rail, 1, DAY_SECONDS - 1);
      WindowsAreTakenInTurn(0, 0, DAY_SECONDS - 1);
      CopiesPass(policy, [], first, cap, DAY_SECONDS - 1, to);
      assert [] + Copies(first, cap) == Greedy(cap, rail, 0);
      hide Caps, WindowAt, Copies;
    } else {
      hide AllPass, TotalIn, WindowAfter, Copies, Caps, WindowAt;
      GreedyPasses(policy, rail, n - 1, to);
      WindowsAreTakenInTurn((n - 1) * DAY_SECONDS, cap, n * DAY_SECONDS);
      CopiesPass(policy, Greedy(cap, rail, n - 1), Spend(rail, 1, n * DAY_SECONDS), cap, DAY_SECONDS - 1, to);
    }
  }

  lemma {:induction false} GreedyClock(cap: u128, rail: Rail, n: nat)
    requires n * DAY_SECONDS <= U64_MAX
    ensures ClockAdvances(Window(0, 0), Greedy(cap, rail, n))
    ensures forall i :: 0 <= i < |Greedy(cap, rail, n)| ==> Greedy(cap, rail, n)[i].now < (n + 1) * DAY_SECONDS
  {
    if n > 0 {
      GreedyClock(cap, rail, n - 1);
    }
  }

  /** Some run with an advancing clock spends exactly `total` within n days of `from`. */
  predicate SpendsWithin(policy: Policy, spends: seq<Spend>, from: int, n: nat, total: nat) {
    && AllPass(policy, Window(0, 0), spends) && ClockAdvances(Window(0, 0), spends)
    && TotalIn(spends, from, from + n * DAY_SECONDS) == total
  }

  lemma GreedySpendsWithin(policy: Policy, rail: Rail, n: nat)
    requires policy.maxPerCall > 0 && policy.dailyCap > 0 && rail in policy.allowRails && 1 <= n && n * DAY_SECONDS <= U64_MAX
    ensures SpendsWithin(policy, Greedy(policy.dailyCap, rail, n), DAY_SECONDS - 1, n, Caps(policy.dailyCap, n + 1))
  {
    hide AllPass, ClockAdvances, TotalIn, Greedy, Caps, WindowAfter;
    GreedyPasses(policy, rail, n, DAY_SECONDS - 1 + n * DAY_SECONDS);
    GreedyClock(policy.dailyCap, rail, n);
  }

  lemma {:induction false} NothingSpentInAnyInterval(policy: Policy, spends: seq<Spend>, from: int, to: int)
    requires AllPass(policy, Window(0, 0), spends)
    requires policy.dailyCap == 0 || policy.maxPerCall == 0 || policy.allowRails == []
    ensures TotalIn(spends, from, to) == 0
  {
    if spends != [] {
      NothingSpentInAnyInterval(policy, spends[..|spends| - 1], from, to);
    }
  }

  /** The documented rolling cap, exactly: for every n, more than n caps can be spent within n days if and only if
      anything can be spent at all. The "rolling" day is a tumbling one for every policy. */
  lemma RollingCapFailsExactly(policy: Policy, n: nat)
    requires 1 <= n && n * DAY_SECONDS <= U64_MAX
    ensures (exists spends, from, total: nat :: SpendsWithin(policy, spends, from, n, total) && total > Caps(policy.dailyCap, n)) <==>
              (policy.dailyCap > 0 && policy.maxPerCall > 0 && policy.allowRails != [])
  {
    hide SpendsWithin, Caps;
    OneMoreCap(policy.dailyCap, n);
    if policy.dailyCap > 0 && policy.maxPerCall > 0 && policy.allowRails != [] {
      GreedySpendsWithin(policy, policy.allowRails[0], n);
    } else {
      NothingSpentWithin(policy, n);
    }
  }

  lemma NothingSpentWithin(policy: Policy, n: nat)
    requires policy.dailyCap == 0 || policy.maxPerCall == 0 || policy.allowRails == []
    ensures forall spends, from, total: nat :: SpendsWithin(policy, spends, from, n, total) ==> total == 0
  {
    forall spends, from, total: nat | SpendsWithin(policy, spends, from, n, total)
      ensures total == 0
    {
      NothingSpentInAnyInterval(policy, spends, from, from + n * DAY_SECONDS);
    }
  }

  /** And the bound of n + 1 caps is reached, exactly, by every policy that lets anything be spent. */
  lemma IntervalBoundIsTight(policy: Policy, n: nat)
    requires 1 <= n && n * DAY_SECONDS <= U64_MAX
    ensures var caps := Caps(policy.dailyCap, n + 1);
            (exists spends, from :: SpendsWithin(policy, spends, from, n, caps)) <==>
              (policy.dailyCap == 0 || (policy.maxPerCall > 0 && policy.allowRails != []))
  {
    OneMoreCap(policy.dailyCap, n);
    if policy.dailyCap == 0 {
      OneMoreCap(0, n);
      assert SpendsWithin(policy, [], 0, n, 0);
    } else if policy.maxPerCall > 0 && policy.allowRails != [] {
      GreedySpendsWithin(policy, policy.allowRails[0], n);
    } else {
      NothingSpentWithin(policy, n);
    }
    hide SpendsWithin, Caps;
  }

  // ── A clock that steps back ────────────────────────────────────────────────

  /** Spend the cap at time 0, restart the window with a spend of nothing a day after it began, step back, repeat. */
  function Sawtooth(cap: u128, rail: Rail, k: nat): seq<Spend>
    requires k * DAY_SECONDS <= U64_MAX
  {
    if k == 0 then Copies(Spend(rail, 1, 0), cap)
    else Sawtooth(cap, rail, k - 1) + [Spend(rail, 0, k * DAY_SECONDS)] + Copies(Spend(rail, 1, 0), cap)
  }

  /** One tooth: the window is restarted a day on, and refilled at time 0. */
  lemma OneMoreTooth(policy: Policy, rail: Rail, before: seq<Spend>, start: u64, now: u64)
    requires policy.maxPerCall > 0 && policy.dailyCap > 0 && rail in policy.allowRails && now == start + DAY_SECONDS
    requires AllPass(policy, Window(0, 0), before) && WindowAfter(Window(0, 0), before) == Window(start, policy.dailyCap)
    ensures var after := before + [Spend(rail, 0, now)] + Copies(Spend(rail, 1, 0), policy.dailyCap);
            && AllPass(policy, Window(0, 0), after) && WindowAfter(Window(0, 0), after) == Window(now, policy.dailyCap)
            && TotalIn(after, 0, DAY_SECONDS) == TotalIn(before, 0, DAY_SECONDS) + policy.dailyCap
  {
    hide AllPass, TotalIn, WindowAfter, Total, Check, Copies, WindowAt, Window.Recorded;
    var restart := Spend(rail, 0, now);
    WindowsAreTakenInTurn(start, policy.dailyCap, now);
    WindowsAreTakenInTurn(now, 0, 0);
    SpendWithinTheCapPasses(policy, Window(start, policy.dailyCap), restart);
    Append(policy, Window(0, 0), before, restart, 0, DAY_SECONDS);
    CopiesPass(policy, before + [restart], Spend(rail, 1, 0), policy.dailyCap, 0, DAY_SECONDS);
  }

  /** With a clock that steps back nothing bounds a day: for as many restarts as the clock has days, one more cap can be
      spent at times inside the first day. Each window still holds at most a cap. */
  lemma {:induction false} SteppingBackEscapesTheDay(policy: Policy, rail: Rail, k: nat)
    requires policy.maxPerCall > 0 && policy.dailyCap > 0 && rail in policy.allowRails && k * DAY_SECONDS <= U64_MAX
    ensures AllPass(policy, Window(0, 0), Sawtooth(policy.dailyCap, rail, k))
    ensures TotalIn(Sawtooth(policy.dailyCap, rail, k), 0, DAY_SECONDS) == Caps(policy.dailyCap, k + 1)
    ensures WindowAfter(Window(0, 0), Sawtooth(policy.dailyCap, rail, k)) == Window(k * DAY_SECONDS, policy.dailyCap)
  {
    var cap, unit := policy.dailyCap, Spend(rail, 1, 0);
    OneMoreCap(cap, k);
    if k == 0 {
      WindowsAreTakenInTurn(0, 0, 0);
      CopiesPass(policy, [], unit, cap, 0, DAY_SECONDS);
      assert [] + Copies(unit, cap) == Sawtooth(cap, rail, 0);
      hide Caps, WindowAt, Copies;
    } else {
      hide AllPass, TotalIn, WindowAfter, Copies, Caps;
      SteppingBackEscapesTheDay(policy, rail, k - 1);
      OneMoreTooth(policy, rail, Sawtooth(cap, rail, k - 1), (k - 1) * DAY_SECONDS, k * DAY_SECONDS);
    }
  }
}

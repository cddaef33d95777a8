/** The user panel of the weighted-lock farming pool on BSC: the countdown
    text, the three cooldown phases and the buttons they enable, the deposit
    handler, and the deposit orders read back from a batch. */
module UserDashboard {

  import opened Common
  import opened Text
  import opened Calls

  // ---------------------------------------------------------------------
  // Countdown
  // ---------------------------------------------------------------------

  /** A positive number of seconds split into days, hours, minutes, seconds. */
  datatype Duration = Duration(days: nat, hours: nat, minutes: nat, seconds: nat)

  function Recompose(d: Duration): nat
  {
    d.days * 86400 + d.hours * 3600 + d.minutes * 60 + d.seconds
  }

  /** The split the countdown performs: whole days, then the hours, minutes
      and seconds left over. */
  function Decompose(total: nat): (d: Duration)
    ensures d.hours < 24 && d.minutes < 60 && d.seconds < 60
    ensures Recompose(d) == total
  {
    var d := Duration(total / 86400, (total % 86400) / 3600, (total % 3600) / 60, total % 60);
    DecomposeRecomposes(total);
    d
  }

  lemma DecomposeRecomposes(total: nat)
    ensures (total % 86400) / 3600 < 24
    ensures (total / 86400) * 86400 + ((total % 86400) / 3600) * 3600
            + ((total % 3600) / 60) * 60 + total % 60 == total
  {
    var q, r := total / 86400, total % 86400;
    assert total == q * 86400 + r;
    var h, r2 := r / 3600, r % 3600;
    assert r == h * 3600 + r2;
    assert total == (q * 24 + h) * 3600 + r2;
    assert total % 3600 == r2;
    var m, sec := r2 / 60, r2 % 60;
    assert r2 == m * 60 + sec;
    assert total == ((q * 24 + h) * 60 + m) * 60 + sec;
    assert total % 60 == sec;
  }

  /** A duration already in range is what the split of its total gives back:
      `Decompose` and `Recompose` are inverse on in-range durations. */
  lemma RecomposeDecomposes(d: Duration)
    requires d.hours < 24 && d.minutes < 60 && d.seconds < 60
    ensures Decompose(Recompose(d)) == d
  {
    var total := Recompose(d);
    var r2 := d.minutes * 60 + d.seconds;
    var r := d.hours * 3600 + r2;
    DivModUnique(total, 86400, d.days, r);
    DivModUnique(r, 3600, d.hours, r2);
    DivModUnique(total, 3600, d.days * 24 + d.hours, r2);
    DivModUnique(r2, 60, d.minutes, d.seconds);
    DivModUnique(total, 60, (d.days * 24 + d.hours) * 60 + d.minutes, d.seconds);
  }

  lemma DivModUnique(x: int, n: int, q: int, r: int)
    requires n > 0 && 0 <= r < n && x == q * n + r
    ensures x / n == q && x % n == r
  {
    var q', r' := x / n, x % n;
    assert q' * n + r' == q * n + r;
    if q' > q {
      assert (q' - q) * n == r - r';
      MulMonotone(q' - q, n);
      assert false;
    } else if q' < q {
      assert (q - q') * n == r' - r;
      MulMonotone(q - q', n);
      assert false;
    }
  }

  lemma MulMonotone(k: int, n: int)
    requires k >= 1 && n > 0
    ensures k * n >= n
  {
    assert k * n == (k - 1) * n + n;
  }

  /** Unit letters and how many seconds each stands for. */
  function UnitSeconds(u: char): (n: nat)
  {
    if u == 'd' then 86400
    else if u == 'h' then 3600
    else if u == 'm' then 60
    else 1
  }

  predicate IsUnit(u: char)
  {
    u == 'd' || u == 'h' || u == 'm' || u == 's'
  }

  function Part(v: nat, unit: char): string
  {
    NatToString(v) + [unit]
  }

  /** A part that is shown only when its count is non-zero. */
  function OptionalPart(v: nat, unit: char): seq<string>
  {
    if v > 0 then [Part(v, unit)] else []
  }

  /** The parts of the countdown: days, hours and minutes only when they are
      non-zero (any zero unit is dropped, not just leading ones), seconds always. */
  function CountdownParts(d: Duration): (parts: seq<string>)
    ensures |parts| >= 1 && parts[|parts| - 1] == Part(d.seconds, 's')
  {
    OptionalPart(d.days, 'd') + OptionalPart(d.hours, 'h') + OptionalPart(d.minutes, 'm')
    + [Part(d.seconds, 's')]
  }

  /** The countdown text for a number of remaining seconds. */
  function CountdownText(seconds: int): string
  {
    if seconds <= 0 then "Ready!" else Join(CountdownParts(Decompose(seconds)), ' ')
  }

  /** `formatCountdown`: builds the list of parts step by step and joins it. */
  method FormatCountdown(seconds: int) returns (r: string)
    ensures r == CountdownText(seconds)
    ensures seconds <= 0 <==> r == "Ready!"
    ensures seconds > 0 ==> Split(r, ' ') == CountdownParts(Decompose(seconds))
  {
    if seconds <= 0 {
      return "Ready!";
    }
    var d := seconds / 86400;
    var h := (seconds % 86400) / 3600;
    var m := (seconds % 3600) / 60;
    var s := seconds % 60;
    var parts: seq<string> := [];
    if d > 0 { parts := parts + [Part(d, 'd')]; }
    if h > 0 { parts := parts + [Part(h, 'h')]; }
    if m > 0 { parts := parts + [Part(m, 'm')]; }
    parts := parts + [Part(s, 's')];
    assert Decompose(seconds) == Duration(d, h, m, s);
    assert parts == CountdownParts(Duration(d, h, m, s));
    r := Join(parts, ' ');
    CountdownReadyIff(seconds);
    CountdownSplits(seconds);
  }

  /** Reads a countdown text back into seconds; None for anything that is
      not a space-separated list of `<digits><unit>` parts. */
  function ParseCountdown(text: string): Option<nat>
  {
    ParseParts(Split(text, ' '))
  }

  function ParsePart(p: string): Option<nat>
  {
    if |p| < 2 || !IsUnit(p[|p| - 1]) then None
    else match ParseNat(p[..|p| - 1])
      case None => None
      case Some(v) => Some(v * UnitSeconds(p[|p| - 1]))
  }

  function ParseParts(ps: seq<string>): Option<nat>
    decreases |ps|
  {
    if |ps| == 0 then Some(0)
    else match (ParsePart(ps[0]), ParseParts(ps[1..]))
      case (Some(a), Some(b)) => Some(a + b)
      case _ => None
  }

  lemma PartParses(v: nat, unit: char)
    requires IsUnit(unit)
    ensures ParsePart(Part(v, unit)) == Some(v * UnitSeconds(unit))
    ensures ' ' !in Part(v, unit)
  {
    var p := Part(v, unit);
    assert p[..|p| - 1] == NatToString(v);
    ParseNatToString(v);
    assert p[|p| - 1] == unit;
    forall i | 0 <= i < |p| ensures p[i] != ' ' {
      if i < |p| - 1 {
        assert p[i] == NatToString(v)[i];
      }
    }
  }

  lemma {:induction false} ParsePartsAppend(a: seq<string>, b: seq<string>, x: nat, y: nat)
    requires ParseParts(a) == Some(x) && ParseParts(b) == Some(y)
    ensures ParseParts(a + b) == Some(x + y)
    decreases |a|
  {
    if |a| > 0 {
      var px := ParsePart(a[0]);
      var rx := ParseParts(a[1..]);
      assert px.Some? && rx.Some? && x == px.value + rx.value;
      ParsePartsAppend(a[1..], b, rx.value, y);
      assert (a + b)[0] == a[0];
      assert (a + b)[1..] == a[1..] + b;
    } else {
      assert a + b == b;
    }
  }

  /** An optional part parses to its value, or to 0 when it was dropped. */
  lemma OptionalPartParses(v: nat, unit: char)
    requires IsUnit(unit)
    ensures ParseParts(OptionalPart(v, unit)) == Some(v * UnitSeconds(unit))
  {
    if v > 0 {
      SinglePartParses(v, unit);
    }
  }

  lemma SinglePartParses(v: nat, unit: char)
    requires IsUnit(unit)
    ensures ParseParts([Part(v, unit)]) == Some(v * UnitSeconds(unit))
  {
    PartParses(v, unit);
    assert [Part(v, unit)][1..] == [];
  }

  lemma CountdownPartsParse(d: Duration)
    ensures ParseParts(CountdownParts(d)) == Some(Recompose(d))
  {
    var pd, ph, pm := OptionalPart(d.days, 'd'), OptionalPart(d.hours, 'h'), OptionalPart(d.minutes, 'm');
    var ps := [Part(d.seconds, 's')];
    OptionalPartParses(d.days, 'd');
    OptionalPartParses(d.hours, 'h');
    OptionalPartParses(d.minutes, 'm');
    SinglePartParses(d.seconds, 's');
    var xd, xh, xm, xs := d.days * UnitSeconds('d'), d.hours * UnitSeconds('h'),
                          d.minutes * UnitSeconds('m'), d.seconds * UnitSeconds('s');
    ParseFour(pd, ph, pm, ps, xd, xh, xm, xs);
    assert xd + xh + xm + xs == Recompose(d) by {
      assert UnitSeconds('d') == 86400 && UnitSeconds('h') == 3600;
      assert UnitSeconds('m') == 60 && UnitSeconds('s') == 1;
    }

  }

  lemma ParseFour(a: seq<string>, b: seq<string>, c: seq<string>, e: seq<string>, xa: nat, xb: nat, xc: nat, xe: nat)
    requires ParseParts(a) == Some(xa) && ParseParts(b) == Some(xb)
    requires ParseParts(c) == Some(xc) && ParseParts(e) == Some(xe)
    ensures ParseParts(a + b + c + e) == Some(xa + xb + xc + xe)
  {
    ParsePartsAppend(a, b, xa, xb);
    ParsePartsAppend(a + b, c, xa + xb, xc);
    ParsePartsAppend(a + b + c, e, xa + xb + xc, xe);
  }

  lemma PartsHaveNoSpace(d: Duration)
    ensures forall i :: 0 <= i < |CountdownParts(d)| ==> ' ' !in CountdownParts(d)[i]
  {
    PartParses(d.days, 'd');
    PartParses(d.hours, 'h');
    PartParses(d.minutes, 'm');
    PartParses(d.seconds, 's');
    var parts := CountdownParts(d);
    forall i | 0 <= i < |parts| ensures ' ' !in parts[i] {
      assert parts[i] in [Part(d.days, 'd'), Part(d.hours, 'h'), Part(d.minutes, 'm'), Part(d.seconds, 's')];
    }
  }

  /** The countdown text splits back into exactly its parts. */
  lemma CountdownSplits(seconds: int)
    requires seconds > 0
    ensures Split(CountdownText(seconds), ' ') == CountdownParts(Decompose(seconds))
  {
    PartsHaveNoSpace(Decompose(seconds));
    SplitJoin(CountdownParts(Decompose(seconds)), ' ');
  }

  /** Round trip: reading the countdown text back yields the seconds it was
      made from, so days, hours, minutes and seconds recompose to the input. */
  lemma CountdownRoundTrip(seconds: int)
    requires seconds > 0
    ensures ParseCountdown(CountdownText(seconds)) == Some(seconds)
  {
    CountdownSplits(seconds);
    CountdownPartsParse(Decompose(seconds));
  }

  /** "Ready!" is shown exactly when no time remains. */
  lemma CountdownReadyIff(seconds: int)
    ensures CountdownText(seconds) == "Ready!" <==> seconds <= 0
  {
    if seconds > 0 {
      CountdownRoundTrip(seconds);
      ReadyDoesNotParse();
    }
  }

  lemma ReadyDoesNotParse()
    ensures ParseCountdown("Ready!") == None
  {
    var ready := "Ready!";
    SplitWord(ready, ' ');
    assert ready[|ready| - 1] == '!';
    assert ParsePart(ready) == None;
  }

  /** A unit other than seconds appears exactly when its count is non-zero. */
  lemma CountdownUnitShown(seconds: int, unit: char)
    requires seconds > 0
    requires unit == 'd' || unit == 'h' || unit == 'm'
    ensures (exists i :: 0 <= i < |CountdownParts(Decompose(seconds))|
                          && CountdownParts(Decompose(seconds))[i][|CountdownParts(Decompose(seconds))[i]| - 1] == unit)
            <==> UnitCount(Decompose(seconds), unit) > 0
  {
    var d := Decompose(seconds);
    var parts := CountdownParts(d);
    if UnitCount(d, unit) > 0 {
      var i := if unit == 'd' then 0
               else if unit == 'h' then (if d.days > 0 then 1 else 0)
               else (if d.days > 0 then 1 else 0) + (if d.hours > 0 then 1 else 0);
      assert parts[i] == Part(UnitCount(d, unit), unit);
    } else {
      forall i | 0 <= i < |parts| ensures parts[i][|parts[i]| - 1] != unit {
        assert parts[i] in [Part(d.days, 'd'), Part(d.hours, 'h'), Part(d.minutes, 'm'), Part(d.seconds, 's')];
      }
    }
  }

  function UnitCount(d: Duration, unit: char): nat
  {
    if unit == 'd' then d.days else if unit == 'h' then d.hours else d.minutes
  }

  lemma CountdownExamples()
    ensures CountdownText(0) == "Ready!" && CountdownText(-5) == "Ready!"
    ensures CountdownText(5) == "5s"
    ensures CountdownText(86405) == "1d 5s"
    ensures CountdownText(90065) == "1d 1h 1m 5s"
  {
    ShortCountdownExamples();
    DayCountdownExample();
    FullCountdownExample();
  }

  lemma ShortCountdownExamples()
    ensures CountdownText(5) == "5s"
  {
    DigitStrings();
    RecomposeDecomposes(Duration(0, 0, 0, 5));
    assert CountdownParts(Duration(0, 0, 0, 5)) == [Part(5, 's')];
  }

  lemma DayCountdownExample()
    ensures CountdownText(86405) == "1d 5s"
  {
    DigitStrings();
    RecomposeDecomposes(Duration(1, 0, 0, 5));
    var parts := CountdownParts(Duration(1, 0, 0, 5));
    assert parts == [Part(1, 'd'), Part(5, 's')];
    assert parts[1..] == [Part(5, 's')];
    assert Join(parts, ' ') == Part(1, 'd') + " " + Part(5, 's');
  }

  lemma FullCountdownExample()
    ensures CountdownText(90065) == "1d 1h 1m 5s"
  {
    DigitStrings();
    RecomposeDecomposes(Duration(1, 1, 1, 5));
    var parts := CountdownParts(Duration(1, 1, 1, 5));
    assert parts == [Part(1, 'd'), Part(1, 'h'), Part(1, 'm'), Part(5, 's')];
    assert parts[1..][1..][1..] == [Part(5, 's')];
    assert Join(parts[1..][1..], ' ') == Part(1, 'm') + " " + Part(5, 's');
    assert Join(parts[1..], ' ') == Part(1, 'h') + " " + Join(parts[1..][1..], ' ');
    assert Join(parts, ' ') == Part(1, 'd') + " " + Join(parts[1..], ' ');
  }

  /** The digits the examples need. */
  lemma DigitStrings()
    ensures NatToString(1) == "1" && NatToString(5) == "5"
    ensures Part(1, 'd') == "1d" && Part(1, 'h') == "1h" && Part(1, 'm') == "1m"
    ensures Part(5, 's') == "5s"
  {
    var digits := "0123456789";
    assert digits[1] == '1' && digits[5] == '5';
  }

  // ---------------------------------------------------------------------
  // Cooldown phases and the claim buttons
  // ---------------------------------------------------------------------

  /** The account's claim window as read from the chain, absent until read. */
  datatype ClaimPeriod = ClaimPeriod(claimStart: nat, claimEnd: nat)

  datatype CooldownFlags = CooldownFlags(
    hasCooldown: bool, inCooldown: bool, inClaimWindow: bool, expired: bool)

  /** The cooldown flags for the current time; an unread period counts as
      start = end = 0. */
  function Cooldown(period: Option<ClaimPeriod>, now: int): (f: CooldownFlags)
    ensures f.hasCooldown <==> period.Some? && (period.value.claimStart > 0 || period.value.claimEnd > 0)
    ensures !f.hasCooldown ==> !f.inCooldown && !f.inClaimWindow && !f.expired
    ensures f.hasCooldown ==>
      && (f.inCooldown <==> now < period.value.claimStart)
      && (f.inClaimWindow <==> period.value.claimStart <= now <= period.value.claimEnd)
      && (f.expired <==> now > period.value.claimEnd)
  {
    var start := if period.Some? then period.value.claimStart else 0;
    var end := if period.Some? then period.value.claimEnd else 0;
    var has := start > 0 || end > 0;
    CooldownFlags(has, has && now < start, has && now >= start && now <= end, has && now > end)
  }

  /** With a well-formed window (start no later than end) at most one phase
      holds, and while a cooldown exists exactly one does. */
  lemma PhasesExclusive(period: Option<ClaimPeriod>, now: int)
    requires period.Some? ==> period.value.claimStart <= period.value.claimEnd
    ensures var f := Cooldown(period, now);
      && !(f.inCooldown && f.inClaimWindow)
      && !(f.inCooldown && f.expired)
      && !(f.inClaimWindow && f.expired)
      && (f.hasCooldown ==> f.inCooldown || f.inClaimWindow || f.expired)
  {
  }

  /** The flags rely on the contract reporting start <= end: with an inverted
      window, "cooling down" and "expired" hold together. */
  lemma InvertedWindowOverlaps()
    ensures var f := Cooldown(Some(ClaimPeriod(10, 5)), 7);
      f.inCooldown && f.expired
  {
  }

  /** The three phases for a window of one day starting at `t`. */
  lemma PhaseExamples(t: nat)
    requires t >= 1
    ensures Cooldown(Some(ClaimPeriod(t, t + 86400)), t - 1).inCooldown
    ensures Cooldown(Some(ClaimPeriod(t, t + 86400)), t).inClaimWindow
    ensures Cooldown(Some(ClaimPeriod(t, t + 86400)), t + 86400 + 1).expired
  {
  }

  /** What the cooldown card shows; a countdown is held as the seconds left,
      which the card renders with `CountdownText`. */
  datatype StatusCard = NoActiveCooldown | CoolingDown(opensIn: int) | WindowOpen(closesIn: int) | Nothing

  function CooldownCard(period: Option<ClaimPeriod>, now: int): StatusCard
  {
    var f := Cooldown(period, now);
    if !f.hasCooldown || f.expired then NoActiveCooldown
    else if f.inCooldown then CoolingDown(period.value.claimStart - now)
    else if f.inClaimWindow then WindowOpen(period.value.claimEnd - now)
    else Nothing
  }

  /** The card's final empty branch is unreachable, for every window; the
      countdown to the window never reads "Ready!", and the countdown to its
      end reads "Ready!" only at the window's last second. */
  lemma CooldownCardNeverEmpty(period: Option<ClaimPeriod>, now: int)
    ensures CooldownCard(period, now) != Nothing
    ensures CooldownCard(period, now).CoolingDown? ==> CountdownText(CooldownCard(period, now).opensIn) != "Ready!"
    ensures CooldownCard(period, now).WindowOpen? ==>
      (CountdownText(CooldownCard(period, now).closesIn) == "Ready!" <==> now == period.value.claimEnd)
  {
    var card := CooldownCard(period, now);
    if card.CoolingDown? {
      CountdownReadyIff(card.opensIn);
    } else if card.WindowOpen? {
      CountdownReadyIff(card.closesIn);
    }
  }

  /** "Start Cooldown" is enabled unless a transaction is in flight or the
      account is cooling down or inside its claim window. */
  predicate StartCooldownEnabled(working: bool, f: CooldownFlags)
  {
    !(working || (f.inCooldown || f.inClaimWindow))
  }

  /** "Claim Full Rewards" is enabled only inside the claim window. */
  predicate FullClaimEnabled(working: bool, f: CooldownFlags)
  {
    !(working || !f.inClaimWindow)
  }

  /** "Claim Immediately" needs a known, non-zero immediate reward. */
  predicate ClaimImmediatelyEnabled(working: bool, unclaimedImmediately: Option<nat>)
  {
    !(working || unclaimedImmediately.None? || unclaimedImmediately.value == 0)
  }

  /** Starting a cooldown and claiming in full are never offered together;
      when idle, exactly one of them is offered unless the account is
      cooling down, in which case neither is. */
  lemma CooldownButtonsExclusive(period: Option<ClaimPeriod>, now: int, working: bool)
    requires period.Some? ==> period.value.claimStart <= period.value.claimEnd
    ensures var f := Cooldown(period, now);
      && !(StartCooldownEnabled(working, f) && FullClaimEnabled(working, f))
      && (!working ==> (StartCooldownEnabled(working, f) || FullClaimEnabled(working, f) <==> !f.inCooldown))
      && (!working && (!f.hasCooldown || f.expired) ==> StartCooldownEnabled(working, f))
  {
  }

  /** The penalised claim does not depend on the phase at all. */
  lemma ClaimImmediatelyIgnoresPhase(working: bool, unclaimed: Option<nat>)
    ensures ClaimImmediatelyEnabled(working, unclaimed) <==>
      !working && unclaimed.Some? && unclaimed.value > 0
  {
  }

  // ---------------------------------------------------------------------
  // Write handlers
  // ---------------------------------------------------------------------

  /** The calls one deposit click sends: an approval of exactly the amount to
      the pool contract, or the deposit with the chosen lock configuration. */
  function DepositCalls(step: DepositStep, poolToken: Option<Address>, lockIndex: nat): (calls: seq<WriteCall>)
    ensures |calls| <= 1
    ensures step.NeedsApproval? ==> calls == [Approve(poolToken, BoostPoolAddress, step.amount)]
    ensures step.Deposit? ==> calls == [BoostDeposit(step.amount, lockIndex)]
    ensures calls == [] <==> step.NoCall? || step.ParseError?
  {
    match step
    case NeedsApproval(a) => [Approve(poolToken, BoostPoolAddress, a)]
    case Deposit(a) => [BoostDeposit(a, lockIndex)]
    case _ => []
  }

  /** `handleDeposit`: sends at most one call; `failed` reports that
      `parseUnits` threw and the handler stopped. */
  method HandleDeposit(wallet: Wallet, input: AmountInput, allowance: Option<nat>,
                       poolToken: Option<Address>, lockIndex: nat) returns (failed: bool)
    modifies wallet
    ensures wallet.sent == old(wallet.sent) + DepositCalls(DepositGate(input, allowance), poolToken, lockIndex)
    ensures failed <==> DepositGate(input, allowance) == ParseError
  {
    failed := false;
    if input.Blank? || !input.positive {
      return;
    }
    if input.scaled.None? {
      failed := true;
      return;
    }
    var amount := input.scaled.value;
    if allowance.None? || allowance.value < amount {
      wallet.WriteContract(Approve(poolToken, BoostPoolAddress, amount));
      return;
    }
    wallet.WriteContract(BoostDeposit(amount, lockIndex));
  }

  method HandleWithdraw(wallet: Wallet, indices: seq<nat>)
    modifies wallet
    ensures wallet.sent == old(wallet.sent) + [BoostWithdraw(indices)]
  {
    wallet.WriteContract(BoostWithdraw(indices));
  }

  method HandleStartCooldown(wallet: Wallet)
    modifies wallet
    ensures wallet.sent == old(wallet.sent) + [StartCoolDown]
  {
    wallet.WriteContract(StartCoolDown);
  }

  method HandleClaim(wallet: Wallet)
    modifies wallet
    ensures wallet.sent == old(wallet.sent) + [BoostClaim]
  {
    wallet.WriteContract(BoostClaim);
  }

  method HandleClaimImmediately(wallet: Wallet)
    modifies wallet
    ensures wallet.sent == old(wallet.sent) + [ClaimImmediately]
  {
    wallet.WriteContract(ClaimImmediately);
  }

  // ---------------------------------------------------------------------
  // Deposit orders
  // ---------------------------------------------------------------------

  /** The number of orders to read; an unread count is 0. */
  function OrderCount(userOrderCount: Option<nat>): nat
  {
    if userOrderCount.Some? then userOrderCount.value else 0
  }

  /** One read per order, in index order. */
  function OrderContracts(account: Address, count: nat): (calls: seq<ReadCall>)
    ensures |calls| == count
    ensures forall i :: 0 <= i < count ==> calls[i] == GetUserDepositOrderByIndex(account, i)
  {
    seq(count, (i: int) requires 0 <= i => GetUserDepositOrderByIndex(account, i as nat))
  }

  /** The result of one order read: the tuple (amount, expiredTime, weighted,
      isWithdraw), or a failure. */
  datatype OrderRead = OrderOk(amount: nat, expiredTime: nat, weighted: nat, isWithdraw: bool) | OrderFailed

  /** A decoded order, remembering its position in the batch. */
  datatype Order = Order(index: nat, amount: nat, expiredTime: nat, weighted: nat, isWithdraw: bool)

  /** `orders`: the successful results, each tagged with its batch index; failed
      results are dropped. */
  function DecodeOrders(results: seq<OrderRead>): (orders: seq<Order>)
    ensures forall k :: 0 <= k < |orders| ==>
      orders[k].index < |results|
      && results[orders[k].index] == OrderOk(orders[k].amount, orders[k].expiredTime, orders[k].weighted, orders[k].isWithdraw)
    ensures forall a, b :: 0 <= a < b < |orders| ==> orders[a].index < orders[b].index
    ensures forall i :: 0 <= i < |results| && results[i].OrderOk? ==> exists k :: 0 <= k < |orders| && orders[k].index == i
    decreases |results|
  {
    if |results| == 0 then []
    else
      var i := |results| - 1;
      var earlier := DecodeOrders(results[..i]);
      assert forall j :: 0 <= j < i ==> results[..i][j] == results[j];
      match results[i]
      case OrderOk(amount, expiredTime, weighted, isWithdraw) =>
        var orders := earlier + [Order(i, amount, expiredTime, weighted, isWithdraw)];
        assert forall k :: 0 <= k < |earlier| ==> orders[k] == earlier[k];
        assert orders[|earlier|].index == i;
        orders
      case OrderFailed => earlier
  }

  /** `ordersData || []`: no batch read yet means no orders. */
  function OrdersOf(ordersData: Option<seq<OrderRead>>): (orders: seq<Order>)
    ensures ordersData.None? ==> orders == []
    ensures ordersData.Some? ==> forall k :: 0 <= k < |orders| ==>
      orders[k].index < |ordersData.value|
      && ordersData.value[orders[k].index]
         == OrderOk(orders[k].amount, orders[k].expiredTime, orders[k].weighted, orders[k].isWithdraw)
    ensures ordersData.Some? ==> forall i :: 0 <= i < |ordersData.value| && ordersData.value[i].OrderOk? ==>
      exists k :: 0 <= k < |orders| && orders[k].index == i
  {
    if ordersData.Some? then DecodeOrders(ordersData.value) else []
  }

  /** Before the order count is read nothing is requested, no order is
      shown and nothing is withdrawable; once read, one order read per
      counted order is requested. */
  lemma UnreadCountShowsNothing(account: Address, userOrderCount: Option<nat>, now: int)
    ensures userOrderCount.None? ==> OrderContracts(account, OrderCount(userOrderCount)) == []
    ensures userOrderCount.Some? ==> |OrderContracts(account, OrderCount(userOrderCount))| == userOrderCount.value
    ensures WithdrawableIndices(OrdersOf(None), now) == []
  {
  }

  /** An order can be withdrawn once it has expired (strictly before now)
      and has not been withdrawn already. */
  predicate Unlocked(o: Order, now: int)
  {
    !o.isWithdraw && o.expiredTime < now
  }

  /** `withdrawableIndices`: the indices of the unlocked orders, in order. */
  function WithdrawableIndices(orders: seq<Order>, now: int): (indices: seq<nat>)
    ensures forall x :: x in indices <==> exists k :: 0 <= k < |orders| && orders[k].index == x && Unlocked(orders[k], now)
    ensures |indices| <= |orders|
    decreases |orders|
  {
    if |orders| == 0 then []
    else
      var rest := WithdrawableIndices(orders[1..], now);
      assert forall k :: 0 <= k < |orders[1..]| ==> orders[1..][k] == orders[k + 1];
      if Unlocked(orders[0], now) then [orders[0].index] + rest else rest
  }

  predicate Ascending(xs: seq<nat>)
  {
    forall a, b :: 0 <= a < b < |xs| ==> xs[a] < xs[b]
  }

  lemma AscendingFirstTwo(xs: seq<nat>)
    requires Ascending(xs) && |xs| >= 2
    ensures xs[0] < xs[1] && xs[0] in xs && xs[1] in xs
  {
  }

  /** An ascending list whose only member is `v` is `[v]`. */
  lemma AscendingSingleton(xs: seq<nat>, v: nat)
    requires Ascending(xs) && v in xs
    requires forall x :: x in xs ==> x == v
    ensures xs == [v]
  {
    if |xs| > 1 {
      AscendingFirstTwo(xs);
      assert false;
    }
  }

  /** Indices taken from strictly ascending orders stay strictly ascending. */
  lemma {:induction false} WithdrawableAscending(orders: seq<Order>, now: int)
    requires forall a, b :: 0 <= a < b < |orders| ==> orders[a].index < orders[b].index
    ensures Ascending(WithdrawableIndices(orders, now))
    decreases |orders|
  {
    if |orders| > 0 {
      var tail := orders[1..];
      assert forall k :: 0 <= k < |tail| ==> tail[k] == orders[k + 1];
      var rest := WithdrawableIndices(tail, now);
      WithdrawableAscending(tail, now);
      forall x | x in rest ensures orders[0].index < x {
        var k :| 0 <= k < |tail| && tail[k].index == x && Unlocked(tail[k], now);
      }
      var ix := WithdrawableIndices(orders, now);
      if Unlocked(orders[0], now) {
        assert ix == [orders[0].index] + rest;
        forall a, b | 0 <= a < b < |ix| ensures ix[a] < ix[b] {
          assert ix[b] == rest[b - 1] && rest[b - 1] in rest;
          if a > 0 {
            assert ix[a] == rest[a - 1];
          }
        }
      } else {
        assert ix == rest;
      }
    }
  }

  /** The "withdraw all unlocked" list read straight off the batch: exactly
      the positions whose read succeeded with an order that is not withdrawn
      and expired strictly before now, in ascending order. */
  lemma WithdrawableFromBatch(results: seq<OrderRead>, now: int)
    ensures var ix := WithdrawableIndices(DecodeOrders(results), now);
      && (forall i :: i in ix <==>
            0 <= i < |results| && results[i].OrderOk? && !results[i].isWithdraw && results[i].expiredTime < now)
      && Ascending(ix)
  {
    var orders := DecodeOrders(results);
    WithdrawableAscending(orders, now);
    forall i | 0 <= i < |results| && results[i].OrderOk? && !results[i].isWithdraw && results[i].expiredTime < now
      ensures i in WithdrawableIndices(orders, now)
    {
      var k :| 0 <= k < |orders| && orders[k].index == i;
      assert Unlocked(orders[k], now);
    }
  }

  /** The worked example: expired 10 s ago, expiring in 10 s, and already
      withdrawn; only the first order is unlocked. */
  lemma WithdrawableExample(now: int)
    requires now >= 10
    ensures WithdrawableIndices(DecodeOrders([
      OrderOk(1, now - 10, 1, false), OrderOk(1, now + 10, 1, false), OrderOk(1, now - 5, 1, true)]), now) == [0]
  {
    var results := [OrderOk(1, now - 10, 1, false), OrderOk(1, now + 10, 1, false), OrderOk(1, now - 5, 1, true)];
    var ix := WithdrawableIndices(DecodeOrders(results), now);
    WithdrawableFromBatch(results, now);
    assert 0 in ix;
    forall x | x in ix ensures x == 0 {
      assert 0 <= x < 3;
    }
    AscendingSingleton(ix, 0);
  }

  /** An order expiring exactly now is still locked. */
  lemma ExpiringNowIsLocked(o: Order, now: int)
    requires o.expiredTime == now
    ensures !Unlocked(o, now)
  {
  }

  /** The per-row Withdraw button shows exactly for the orders that the
      bulk button would withdraw. */
  lemma RowButtonMatchesBulk(orders: seq<Order>, now: int, k: nat)
    requires k < |orders|
    requires forall a, b :: 0 <= a < b < |orders| ==> orders[a].index < orders[b].index
    ensures Unlocked(orders[k], now) <==> orders[k].index in WithdrawableIndices(orders, now)
  {
    if orders[k].index in WithdrawableIndices(orders, now) {
      var j :| 0 <= j < |orders| && orders[j].index == orders[k].index && Unlocked(orders[j], now);
      assert j == k;
    }
  }

  /** The status badge of an order row. */
  datatype OrderBadge = WithdrawnBadge | UnlockedBadge | LockedBadge(unlocksIn: int)

  /** Withdrawn first, then unlocked (expired strictly before now), else
      locked with the seconds left until expiry. */
  function OrderBadgeOf(o: Order, now: int): (b: OrderBadge)
    ensures b.WithdrawnBadge? <==> o.isWithdraw
    ensures b.UnlockedBadge? <==> Unlocked(o, now)
    ensures b.LockedBadge? ==> b.unlocksIn == o.expiredTime - now && b.unlocksIn >= 0
  {
    if o.isWithdraw then WithdrawnBadge
    else if o.expiredTime < now then UnlockedBadge
    else LockedBadge(o.expiredTime - now)
  }

  /** A locked badge counts down to the expiry, and during the one second
      when the order expires exactly now it reads "Ready!" while still
      locked. */
  lemma LockedBadgeReadsReady(o: Order, now: int)
    requires OrderBadgeOf(o, now).LockedBadge?
    ensures CountdownText(OrderBadgeOf(o, now).unlocksIn) == "Ready!" <==> o.expiredTime == now
  {
    CountdownReadyIff(OrderBadgeOf(o, now).unlocksIn);
  }
}

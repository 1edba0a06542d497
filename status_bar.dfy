/**
 * The status bar's bookkeeping (`llstatusbar.cpp`): the day and month names
 * split out of a `':'`-separated string, the L$ balance and health values
 * with their flash timers and change sounds, the land-credit arithmetic,
 * `can_afford_transaction` and the `balance` command handler's token check.
 */
module StatusBar {
  import opened Wrappers

  /** Input strings this long or longer are ignored by `setupDate`. */
  const MAX_DATE_STRING_LENGTH: nat := 2000
  /** Seconds the balance and health icons flash after a change. */
  const ICON_TIMER_EXPIRY: real := 3.0
  const DAYS_PER_WEEK: nat := 7
  const MONTHS_PER_YEAR: nat := 12

  // ---------------------------------------------------------------------
  // Date names
  // ---------------------------------------------------------------------

  /**
   * The words of `s` between `':'` separators, defined one character at a
   * time as the tokenizer loop reads them: a separator closes the current
   * word, any other character extends it, and the last word is always kept.
   */
  function Tokens(s: string): (r: seq<string>)
    ensures |r| >= 1
    decreases |s|
  {
    if |s| == 0 then [""]
    else
      var t := Tokens(s[..|s| - 1]);
      if s[|s| - 1] == ':' then t + [""]
      else t[..|t| - 1] + [t[|t| - 1] + [s[|s| - 1]]]
  }

  /** The number of separators in `s`. */
  function Separators(s: string): nat
    decreases |s|
  {
    if |s| == 0 then 0
    else Separators(s[..|s| - 1]) + (if s[|s| - 1] == ':' then 1 else 0)
  }

  /** The words `parts` written back with `':'` between them. */
  function Join(parts: seq<string>): string
    requires |parts| >= 1
    decreases |parts|
  {
    if |parts| == 1 then parts[0]
    else Join(parts[..|parts| - 1]) + ":" + parts[|parts| - 1]
  }

  predicate NoSeparator(w: string) {
    forall i :: 0 <= i < |w| ==> w[i] != ':'
  }

  /** One word more than there are separators. */
  lemma {:induction false} TokensCount(s: string)
    ensures |Tokens(s)| == Separators(s) + 1
    decreases |s|
  {
    if |s| > 0 {
      TokensCount(s[..|s| - 1]);
    }
  }

  /** No word contains a separator. */
  lemma {:induction false} TokensHaveNoSeparator(s: string)
    ensures forall k :: 0 <= k < |Tokens(s)| ==> NoSeparator(Tokens(s)[k])
    decreases |s|
  {
    if |s| > 0 {
      TokensHaveNoSeparator(s[..|s| - 1]);
      var t := Tokens(s[..|s| - 1]);
      assert forall k :: 0 <= k < |t| ==> NoSeparator(t[k]);
    }
  }

  /** Joining the words with `':'` gives back the input. */
  lemma {:induction false} JoinTokens(s: string)
    ensures Join(Tokens(s)) == s
    decreases |s|
  {
    if |s| > 0 {
      var p := s[..|s| - 1];
      var c := s[|s| - 1];
      JoinTokens(p);
      assert s == p + [c];
      if c == ':' {
        JoinTokensSeparator(p);
      } else {
        JoinTokensChar(p, c);
      }
    }
  }

  /** The step of JoinTokens for a separator. */
  lemma JoinTokensSeparator(p: string)
    requires Join(Tokens(p)) == p
    ensures Join(Tokens(p + [':'])) == p + [':']
  {
    var s := p + [':'];
    assert s[..|s| - 1] == p;
    var t := Tokens(p);
    assert Tokens(s) == t + [""];
    JoinSnoc(t, "");
    assert p + ":" + "" == s;
  }

  /** The step of JoinTokens for any other character. */
  lemma JoinTokensChar(p: string, c: char)
    requires c != ':' && Join(Tokens(p)) == p
    ensures Join(Tokens(p + [c])) == p + [c]
  {
    var s := p + [c];
    assert s[..|s| - 1] == p;
    var t := Tokens(p);
    var init := t[..|t| - 1];
    var last := t[|t| - 1];
    assert Tokens(s) == init + [last + [c]];
    assert t == init + [last];
    JoinExtendLast(init, last, c);
  }

  /** Joining one more word appends a separator and the word. */
  lemma JoinSnoc(t: seq<string>, w: string)
    requires |t| >= 1
    ensures Join(t + [w]) == Join(t) + ":" + w
  {
    var u := t + [w];
    assert u[..|u| - 1] == t;
  }

  /** Extending the last word by `c` extends the joined string by `c`. */
  lemma JoinExtendLast(init: seq<string>, last: string, c: char)
    ensures Join(init + [last + [c]]) == Join(init + [last]) + [c]
  {
    if |init| > 0 {
      JoinSnoc(init, last + [c]);
      JoinSnoc(init, last);
      var x := Join(init);
      assert x + ":" + (last + [c]) == (x + ":" + last) + [c];
    } else {
      assert init + [last + [c]] == [last + [c]];
      assert init + [last] == [last];
    }
  }

  /** Appending separator-free characters extends the last word. */
  lemma {:induction false} TokensExtendLast(a: string, w: string)
    requires NoSeparator(w)
    ensures var t := Tokens(a);
      Tokens(a + w) == t[..|t| - 1] + [t[|t| - 1] + w]
    decreases |w|
  {
    var t := Tokens(a);
    if |w| == 0 {
      assert a + w == a;
      assert t[|t| - 1] + w == t[|t| - 1];
      assert t[..|t| - 1] + [t[|t| - 1]] == t;
    } else {
      var v := w[..|w| - 1];
      assert (a + w)[..|a + w| - 1] == a + v;
      TokensExtendLast(a, v);
      var t2 := Tokens(a + v);
      assert t2 == t[..|t| - 1] + [t[|t| - 1] + v];
      assert t2[..|t2| - 1] == t[..|t| - 1];
      assert t[|t| - 1] + v + [w[|w| - 1]] == t[|t| - 1] + w;
    }
  }

  /**
   * Splitting a join of separator-free words gives the words back, so the
   * day or month names written in the string are exactly the ones stored.
   */
  lemma {:induction false} TokensJoin(parts: seq<string>)
    requires |parts| >= 1
    requires forall k :: 0 <= k < |parts| ==> NoSeparator(parts[k])
    ensures Tokens(Join(parts)) == parts
    decreases |parts|
  {
    if |parts| == 1 {
      TokensExtendLast("", parts[0]);
      assert "" + parts[0] == parts[0];
    } else {
      var init := parts[..|parts| - 1];
      var w := parts[|parts| - 1];
      TokensJoin(init);
      var a := Join(init) + ":";
      TokensAfterSeparator(Join(init));
      TokensExtendLast(a, w);
      ReplaceEmptyLast(init, w);
      assert init + [w] == parts;
    }
  }

  /** A trailing separator opens an empty word. */
  lemma TokensAfterSeparator(x: string)
    ensures Tokens(x + ":") == Tokens(x) + [""]
  {
    var a := x + ":";
    assert a[..|a| - 1] == x;
  }

  /** Filling the empty last word with `w`. */
  lemma ReplaceEmptyLast(init: seq<string>, w: string)
    ensures var t := init + [""]; t[..|t| - 1] + [t[|t| - 1] + w] == init + [w]
  {
    var t := init + [""];
    assert t[..|t| - 1] == init;
    assert t[|t| - 1] + w == w;
  }

  /** The words one call appends: none for a string at or over the limit. */
  function Accepted(list: string): (r: seq<string>)
  {
    if |list| < MAX_DATE_STRING_LENGTH then Tokens(list) else []
  }

  /** `resize(n)` when shorter than `n`: empty names at the end. */
  function Padded(v: seq<string>, n: nat): (r: seq<string>)
    ensures |r| == (if |v| < n then n else |v|)
    ensures r[..|v|] == v
    ensures forall i :: |v| <= i < |r| ==> r[i] == ""
  {
    if |v| < n then v + seq(n - |v|, _ => "") else v
  }

  /**
   * What one `setupDate` call appends to a name table: separators + 1 words
   * for an input under the limit, nothing for a longer one.
   */
  lemma AcceptedCount(list: string)
    ensures |Accepted(list)| == (if |list| < MAX_DATE_STRING_LENGTH then Separators(list) + 1 else 0)
    ensures |list| < MAX_DATE_STRING_LENGTH ==> Join(Accepted(list)) == list
  {
    if |list| < MAX_DATE_STRING_LENGTH {
      TokensCount(list);
      JoinTokens(list);
    }
  }

  /** The character loop of `setupDate`, collecting the words of `s`. */
  method Tokenize(s: string) returns (words: seq<string>)
    ensures words == Tokens(s)
  {
    words := [];
    var cur := "";
    var i := 0;
    assert s[..0] == "";
    while i < |s|
      invariant 0 <= i <= |s|
      invariant words + [cur] == Tokens(s[..i])
    {
      assert s[..i + 1][..i] == s[..i];
      if s[i] == ':' {
        words := words + [cur];
        cur := "";
      } else {
        var t := Tokens(s[..i]);
        assert t[..|t| - 1] == words;
        cur := cur + [s[i]];
      }
      i := i + 1;
    }
    assert s[..|s|] == s;
    words := words + [cur];
  }

  /** The static `sDays` and `sMonths` tables, which `setupDate` fills. */
  class DateNames {
    var days: seq<string>
    var months: seq<string>

    constructor ()
      ensures days == [] && months == []
    {
      days := [];
      months := [];
    }

    /**
     * `LLStatusBar::setupDate`: appends the words of each list (when it is
     * under the length limit) to what the tables already hold, then pads
     * the days to 7 and the months to 12 entries.
     */
    method SetupDate(dayList: string, monthList: string)
      modifies this
      ensures days == Padded(old(days) + Accepted(dayList), DAYS_PER_WEEK)
      ensures months == Padded(old(months) + Accepted(monthList), MONTHS_PER_YEAR)
      ensures |days| >= DAYS_PER_WEEK && |months| >= MONTHS_PER_YEAR
    {
      if |dayList| < MAX_DATE_STRING_LENGTH {
        var words := Tokenize(dayList);
        days := days + words;
      }
      if |monthList| < MAX_DATE_STRING_LENGTH {
        var words := Tokenize(monthList);
        months := months + words;
      }
      if |days| < DAYS_PER_WEEK {
        days := days + seq(DAYS_PER_WEEK - |days|, _ => "");
      }
      if |months| < MONTHS_PER_YEAR {
        months := months + seq(MONTHS_PER_YEAR - |months|, _ => "");
      }
    }
  }

  /**
   * A first `setupDate` on empty tables with a well-formed list of seven
   * day names stores exactly those names.
   */
  lemma SetupDateStoresNames(names: seq<string>)
    requires |names| == DAYS_PER_WEEK
    requires forall k :: 0 <= k < |names| ==> NoSeparator(names[k])
    requires |Join(names)| < MAX_DATE_STRING_LENGTH
    ensures Padded([] + Accepted(Join(names)), DAYS_PER_WEEK) == names
  {
    TokensJoin(names);
    assert [] + names == names;
  }

  // ---------------------------------------------------------------------
  // Balance and health
  // ---------------------------------------------------------------------

  datatype UiSound = MoneyChangeDown | MoneyChangeUp | HealthReductionFemale | HealthReductionMale

  datatype Sex = Female | Male

  function Abs(x: real): real {
    if x < 0.0 then -x else x
  }

  /**
   * The sound `setBalance` plays: none while the old balance is zero or the
   * change is within the threshold, otherwise down or up with the change.
   */
  function BalanceSound(oldBalance: int, newBalance: int, threshold: real): (r: Option<UiSound>)
    ensures r.Some? <==> oldBalance != 0 && Abs((oldBalance - newBalance) as real) > threshold
    ensures r == Some(MoneyChangeDown) <==> r.Some? && newBalance < oldBalance
    ensures r == Some(MoneyChangeUp) <==> r.Some? && newBalance >= oldBalance
  {
    if oldBalance != 0 && Abs((oldBalance - newBalance) as real) > threshold then
      if oldBalance > newBalance then Some(MoneyChangeDown) else Some(MoneyChangeUp)
    else None
  }

  /**
   * The sound `setHealth` plays: only for a drop of more than the threshold
   * with an avatar present, chosen by the avatar's sex.
   */
  function HealthSound(oldHealth: int, newHealth: int, threshold: real, avatar: Option<Sex>): (r: Option<UiSound>)
    ensures r.Some? <==> oldHealth > newHealth && oldHealth as real > newHealth as real + threshold && avatar.Some?
    ensures r == Some(HealthReductionFemale) <==> r.Some? && avatar == Some(Female)
    ensures r == Some(HealthReductionMale) <==> r.Some? && avatar == Some(Male)
  {
    if oldHealth > newHealth && oldHealth as real > newHealth as real + threshold then
      match avatar
      case Some(Female) => Some(HealthReductionFemale)
      case Some(Male) => Some(HealthReductionMale)
      case None => None
    else None
  }

  /** A non-negative threshold never sounds for an unchanged balance. */
  lemma UnchangedBalanceIsSilent(balance: int, threshold: real)
    requires threshold >= 0.0
    ensures BalanceSound(balance, balance, threshold) == None
  {
  }

  /** A debit beyond the threshold from a non-zero balance sounds "down". */
  lemma DebitSoundsDown(balance: int, debit: int, threshold: real)
    requires balance != 0 && debit > 0 && debit as real > threshold
    ensures BalanceSound(balance, balance - debit, threshold) == Some(MoneyChangeDown)
  {
  }

  /** A credit beyond the threshold to a non-zero balance sounds "up". */
  lemma CreditSoundsUp(balance: int, credit: int, threshold: real)
    requires balance != 0 && credit >= 0 && credit as real > threshold
    ensures BalanceSound(balance, balance + credit, threshold) == Some(MoneyChangeUp)
  {
  }

  /** Health sounds only on a real drop, whatever the threshold. */
  lemma HealthSoundOnlyOnDrop(oldHealth: int, newHealth: int, threshold: real, avatar: Option<Sex>)
    requires oldHealth <= newHealth
    ensures HealthSound(oldHealth, newHealth, threshold, avatar) == None
  {
  }

  /** `LLStatusBar`'s balance, health and land-credit state. */
  class StatusBarState {
    var balance: int
    var health: int
    var squareMetersCredit: int
    var squareMetersCommitted: int
    /** When the balance icon stops flashing; none before the first change. */
    var balanceFlashUntil: Option<real>
    /** When the health icon stops flashing; none before the first drop. */
    var healthFlashUntil: Option<real>

    /** The constructor's initial values. */
    constructor ()
      ensures balance == 0 && health == 100
      ensures squareMetersCredit == 0 && squareMetersCommitted == 0
      ensures balanceFlashUntil == None && healthFlashUntil == None
    {
      balance := 0;
      health := 100;
      squareMetersCredit := 0;
      squareMetersCommitted := 0;
      balanceFlashUntil := None;
      healthFlashUntil := None;
    }

    /**
     * `setBalance`: plays the change sound, restarts the flash timer only
     * when the balance changes, and stores the new balance.
     */
    method SetBalance(newBalance: int, now: real, threshold: real) returns (sound: Option<UiSound>, restarted: bool)
      modifies this
      ensures sound == BalanceSound(old(balance), newBalance, threshold)
      ensures restarted <==> newBalance != old(balance)
      ensures balance == newBalance
      ensures balanceFlashUntil == (if restarted then Some(now + ICON_TIMER_EXPIRY) else old(balanceFlashUntil))
      ensures health == old(health) && healthFlashUntil == old(healthFlashUntil)
      ensures squareMetersCredit == old(squareMetersCredit) && squareMetersCommitted == old(squareMetersCommitted)
    {
      sound := None;
      if balance != 0 && Abs((balance - newBalance) as real) > threshold {
        if balance > newBalance {
          sound := Some(MoneyChangeDown);
        } else {
          sound := Some(MoneyChangeUp);
        }
      }
      restarted := false;
      if newBalance != balance {
        restarted := true;
        balanceFlashUntil := Some(now + ICON_TIMER_EXPIRY);
        balance := newBalance;
      }
    }

    /** `debitBalance`: the balance goes down by `debit`. */
    method DebitBalance(debit: int, now: real, threshold: real) returns (sound: Option<UiSound>, restarted: bool)
      modifies this
      ensures balance == old(balance) - debit
      ensures sound == BalanceSound(old(balance), old(balance) - debit, threshold)
      ensures restarted <==> debit != 0
      ensures balanceFlashUntil == (if restarted then Some(now + ICON_TIMER_EXPIRY) else old(balanceFlashUntil))
      ensures health == old(health) && healthFlashUntil == old(healthFlashUntil)
      ensures squareMetersCredit == old(squareMetersCredit) && squareMetersCommitted == old(squareMetersCommitted)
    {
      sound, restarted := SetBalance(balance - debit, now, threshold);
    }

    /** `creditBalance`: the balance goes up by `credit`. */
    method CreditBalance(credit: int, now: real, threshold: real) returns (sound: Option<UiSound>, restarted: bool)
      modifies this
      ensures balance == old(balance) + credit
      ensures sound == BalanceSound(old(balance), old(balance) + credit, threshold)
      ensures restarted <==> credit != 0
      ensures balanceFlashUntil == (if restarted then Some(now + ICON_TIMER_EXPIRY) else old(balanceFlashUntil))
      ensures health == old(health) && healthFlashUntil == old(healthFlashUntil)
      ensures squareMetersCredit == old(squareMetersCredit) && squareMetersCommitted == old(squareMetersCommitted)
    {
      sound, restarted := SetBalance(balance + credit, now, threshold);
    }

    /**
     * `setHealth`: on a drop, plays the reduction sound (when it exceeds the
     * threshold and there is an avatar) and restarts the flash timer; the
     * new health is always stored.
     */
    method SetHealth(newHealth: int, now: real, threshold: real, avatar: Option<Sex>) returns (sound: Option<UiSound>, restarted: bool)
      modifies this
      ensures sound == HealthSound(old(health), newHealth, threshold, avatar)
      ensures restarted <==> newHealth < old(health)
      ensures health == newHealth
      ensures healthFlashUntil == (if restarted then Some(now + ICON_TIMER_EXPIRY) else old(healthFlashUntil))
      ensures balance == old(balance) && balanceFlashUntil == old(balanceFlashUntil)
      ensures squareMetersCredit == old(squareMetersCredit) && squareMetersCommitted == old(squareMetersCommitted)
    {
      sound := None;
      restarted := false;
      if health > newHealth {
        if health as real > newHealth as real + threshold {
          match avatar {
            case Some(Female) => sound := Some(HealthReductionFemale);
            case Some(Male) => sound := Some(HealthReductionMale);
            case None =>
          }
        }
        restarted := true;
        healthFlashUntil := Some(now + ICON_TIMER_EXPIRY);
      }
      health := newHealth;
    }

    /** `setLandCredit`: the user is tiered exactly when the new credit is positive. */
    method SetLandCredit(credit: int)
      modifies this
      ensures squareMetersCredit == credit && squareMetersCommitted == old(squareMetersCommitted)
      ensures IsUserTiered() <==> credit > 0
      ensures SquareMetersLeft() == credit - old(squareMetersCommitted)
      ensures balance == old(balance) && health == old(health)
      ensures balanceFlashUntil == old(balanceFlashUntil) && healthFlashUntil == old(healthFlashUntil)
    {
      squareMetersCredit := credit;
    }

    /** `setLandCommitted`: the tier is unchanged and the land left is the credit minus the new commitment. */
    method SetLandCommitted(committed: int)
      modifies this
      ensures squareMetersCommitted == committed && squareMetersCredit == old(squareMetersCredit)
      ensures IsUserTiered() == old(IsUserTiered())
      ensures SquareMetersLeft() == old(squareMetersCredit) - committed
      ensures balance == old(balance) && health == old(health)
      ensures balanceFlashUntil == old(balanceFlashUntil) && healthFlashUntil == old(healthFlashUntil)
    {
      squareMetersCommitted := committed;
    }

    /** `isUserTiered`: the user holds land credit. */
    function IsUserTiered(): (r: bool)
      reads this
      ensures r <==> squareMetersCredit > 0
    {
      squareMetersCredit > 0
    }

    /** `getSquareMetersLeft`: the credit not yet committed. */
    function SquareMetersLeft(): (r: int)
      reads this
      ensures r + squareMetersCommitted == squareMetersCredit
      ensures r >= 0 <==> squareMetersCommitted <= squareMetersCredit
    {
      squareMetersCredit - squareMetersCommitted
    }
  }

  // ---------------------------------------------------------------------
  // Affordability and the balance command
  // ---------------------------------------------------------------------

  /**
   * `can_afford_transaction`: free or negative costs are always affordable;
   * otherwise there must be a status bar whose balance covers the cost.
   */
  function CanAffordTransaction(cost: int, balance: Option<int>): (r: bool)
    ensures cost <= 0 ==> r
    ensures balance.None? ==> (r <==> cost <= 0)
  {
    cost <= 0 || (balance.Some? && balance.value >= cost)
  }

  /** A positive cost is affordable exactly when debiting it leaves no debt. */
  lemma AffordableIffDebitNonNegative(cost: int, balance: int)
    requires cost > 0
    ensures CanAffordTransaction(cost, Some(balance)) <==> balance - cost >= 0
  {
  }

  /** More money never makes a transaction unaffordable. */
  lemma AffordableMonotone(cost: int, balance: int, more: int)
    requires more >= balance
    ensures CanAffordTransaction(cost, Some(balance)) ==> CanAffordTransaction(cost, Some(more))
  {
  }

  /**
   * `LLBalanceHandler::handle`: the request is accepted (and a balance
   * request sent) only for the single token `request`.
   */
  function BalanceHandle(tokens: seq<string>): (r: bool)
    ensures r <==> tokens == ["request"]
  {
    |tokens| == 1 && tokens[0] == "request"
  }
}

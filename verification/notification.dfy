/**
 * The notification decision (monitor.js, `checkPricesAndNotify`): walk the
 * extracted prices in page order and alert on the first one that is
 * positive, at most the threshold, and different from the price last alerted
 * for the grade; record that price and stop. The per-grade record is the
 * `notified` object of the program, here an explicit map.
 */
module Notification {

  import opened Wrappers
  import opened Search

  /** The last price alerted on, per grade; a grade never alerted on has no entry. */
  type Notified = map<string, nat>

  /**
   * The outcome of one check: whether an alert fired, the price the alert
   * message carries, and the record afterwards.
   */
  datatype Decision = Decision(fired: bool, sent: Option<nat>, notified: Notified)

  /**
   * A price worth an alert for `grade`, given the record and the threshold.
   * A grade without an entry reads as `undefined`, which differs from every
   * price.
   */
  predicate Qualifies(notified: Notified, grade: string, threshold: int, price: nat)
    ensures grade in notified && notified[grade] == price ==> !Qualifies(notified, grade, threshold, price)
    ensures grade !in notified ==> (Qualifies(notified, grade, threshold, price) <==> 0 < price <= threshold)
    ensures price == 0 || price > threshold ==> !Qualifies(notified, grade, threshold, price)
  {
    && 0 < price
    && price <= threshold
    && (grade !in notified || notified[grade] != price)
  }

  function QualifiesFor(notified: Notified, grade: string, threshold: int): nat -> bool {
    (price: nat) => Qualifies(notified, grade, threshold, price)
  }

  /** Position `k` holds the first price in `prices` that qualifies. */
  predicate FirstQualifying(notified: Notified, grade: string, threshold: int, prices: seq<nat>, k: nat) {
    IsFirst(prices, QualifiesFor(notified, grade, threshold), k)
  }

  /** One check of a grade's prices. */
  function Decide(notified: Notified, grade: string, prices: seq<nat>, threshold: int): (d: Decision)
    ensures d.fired <==> d.sent.Some?
    ensures d.fired <==> exists k :: 0 <= k < |prices| && Qualifies(notified, grade, threshold, prices[k])
    ensures d.fired ==> exists k: nat :: FirstQualifying(notified, grade, threshold, prices, k) && d.sent.value == prices[k]
    ensures d.fired ==> d.notified == notified[grade := d.sent.value]
    ensures !d.fired ==> d.notified == notified
  {
    match FindFirst(prices, QualifiesFor(notified, grade, threshold))
    case Some(k) => Decision(true, Some(prices[k]), notified[grade := prices[k]])
    case None => Decision(false, None, notified)
  }

  /** An alert is only ever for a positive price within the threshold that differs from the record. */
  lemma FiredQualifies(notified: Notified, grade: string, prices: seq<nat>, threshold: int)
    ensures var d := Decide(notified, grade, prices, threshold);
      d.fired ==> 0 < d.sent.value <= threshold && (grade !in notified || notified[grade] != d.sent.value)
  {
  }

  /** Only the checked grade's entry can change; every other grade keeps its entry. */
  lemma OtherGradesUnchanged(notified: Notified, grade: string, prices: seq<nat>, threshold: int, other: string)
    requires other != grade
    ensures var d := Decide(notified, grade, prices, threshold);
      (other in d.notified <==> other in notified) &&
      (other in notified ==> d.notified[other] == notified[other])
  {
  }

  /** The decision for a grade depends on the record only through that grade's entry. */
  lemma DependsOnOwnEntry(n1: Notified, n2: Notified, grade: string, prices: seq<nat>, threshold: int)
    requires (grade in n1 <==> grade in n2) && (grade in n1 ==> n1[grade] == n2[grade])
    ensures Decide(n1, grade, prices, threshold).sent == Decide(n2, grade, prices, threshold).sent
  {
    FindFirstCongruent(prices, QualifiesFor(n1, grade, threshold), QualifiesFor(n2, grade, threshold));
  }

  /** Dedup: right after an alert on `p`, a check that sees only `p` stays silent. */
  lemma SamePriceDoesNotRefire(notified: Notified, grade: string, p: nat, threshold: int)
    ensures var d1 := Decide(notified, grade, [p], threshold);
      d1.fired ==> !Decide(d1.notified, grade, [p], threshold).fired
  {
  }

  /**
   * After an alert on `p`, the next check fires exactly when its list holds a
   * positive price within the threshold other than `p`.
   */
  lemma NextCheckAfterAlert(notified: Notified, grade: string, first: seq<nat>, next: seq<nat>, threshold: int)
    requires Decide(notified, grade, first, threshold).fired
    ensures var d1 := Decide(notified, grade, first, threshold);
      Decide(d1.notified, grade, next, threshold).fired <==>
        exists k :: 0 <= k < |next| && 0 < next[k] <= threshold && next[k] != d1.sent.value
  {
    var d1 := Decide(notified, grade, first, threshold);
    assert grade in d1.notified && d1.notified[grade] == d1.sent.value;
  }

  /** Two alerts in a row for the same grade are never for the same price. */
  lemma ConsecutiveAlertsDiffer(notified: Notified, grade: string, first: seq<nat>, next: seq<nat>, threshold: int)
    ensures var d1 := Decide(notified, grade, first, threshold);
      var d2 := Decide(d1.notified, grade, next, threshold);
      d1.fired && d2.fired ==> d2.sent != d1.sent
  {
  }

  /** Raising the threshold can only make a silent check fire, never silence a firing one. */
  lemma ThresholdMonotone(notified: Notified, grade: string, prices: seq<nat>, t1: int, t2: int)
    requires t1 <= t2
    ensures Decide(notified, grade, prices, t1).fired ==> Decide(notified, grade, prices, t2).fired
  {
  }

  /**
   * The walk stops at the first qualifying price: on `a + b` the decision is
   * the decision on `a` when that fires, and otherwise the decision on `b`.
   */
  lemma {:induction false} DecideAppend(notified: Notified, grade: string, a: seq<nat>, b: seq<nat>, threshold: int)
    ensures Decide(notified, grade, a + b, threshold) ==
      if Decide(notified, grade, a, threshold).fired then Decide(notified, grade, a, threshold)
      else Decide(notified, grade, b, threshold)
  {
    var q := QualifiesFor(notified, grade, threshold);
    FindFirstAppend(a, b, q);
    match FindFirst(a, q)
    case Some(k) =>
      assert (a + b)[k] == a[k];
    case None =>
      match FindFirst(b, q)
      case Some(k) =>
        assert (a + b)[|a| + k] == b[k];
      case None =>
  }

  /**
   * Strict-equality dedup re-alerts on a price once a different price has
   * been alerted on in between: 900000, then 950000, then 900000 again all
   * fire under a threshold of 1000000.
   */
  lemma ReAlertAfterOtherPrice(notified: Notified, grade: string)
    requires grade !in notified
    ensures var d1 := Decide(notified, grade, [900000], 1000000);
      var d2 := Decide(d1.notified, grade, [950000], 1000000);
      var d3 := Decide(d2.notified, grade, [900000], 1000000);
      d1.fired && d2.fired && d3.fired && d3.notified[grade] == 900000
  {
    var d1 := Decide(notified, grade, [900000], 1000000);
    assert Qualifies(notified, grade, 1000000, [900000][0]);
    var d2 := Decide(d1.notified, grade, [950000], 1000000);
    assert Qualifies(d1.notified, grade, 1000000, [950000][0]);
    assert Qualifies(d2.notified, grade, 1000000, [900000][0]);
  }

  /**
   * With two qualifying prices on the page, consecutive checks alternate
   * between them and alert every time.
   */
  lemma TwoPricesAlternate(grade: string)
    ensures var d1 := Decide(map[], grade, [500, 700], 1000);
      var d2 := Decide(d1.notified, grade, [500, 700], 1000);
      var d3 := Decide(d2.notified, grade, [500, 700], 1000);
      d1.sent == Some(500) && d2.sent == Some(700) && d3.sent == Some(500)
  {
    var ps: seq<nat> := [500, 700];
    var d1 := Decide(map[], grade, ps, 1000);
    FindFirstIs(ps, QualifiesFor(map[], grade, 1000), 0);
    var d2 := Decide(d1.notified, grade, ps, 1000);
    FindFirstIs(ps, QualifiesFor(d1.notified, grade, 1000), 1);
    FindFirstIs(ps, QualifiesFor(d2.notified, grade, 1000), 0);
  }

  /** Two listings at the same price alert once: after the alert, neither differs from the record. */
  lemma EqualPricesAlertOnce(grade: string)
    ensures var d1 := Decide(map[], grade, [500, 500], 1000);
      d1.sent == Some(500) && !Decide(d1.notified, grade, [500, 500], 1000).fired
  {
    var ps: seq<nat> := [500, 500];
    FindFirstIs(ps, QualifiesFor(map[], grade, 1000), 0);
  }
}

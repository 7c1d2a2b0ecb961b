/**
 * `checkPricesAndNotify` end to end: the price texts of one grade's listings
 * are extracted and the decision is taken on the result. Sending the alert is
 * the `sent` price of the decision.
 */
module Monitor {

  import opened Wrappers
  import opened Decimal
  import opened Extraction
  import opened Notification

  /**
   * Text `j` is the first text in page order whose parsed price is worth an
   * alert; texts without digits are passed over.
   */
  predicate FirstQualifyingText(notified: Notified, grade: string, threshold: int, texts: seq<string>, j: nat) {
    && j < |texts|
    && HasDigit(texts[j])
    && Qualifies(notified, grade, threshold, PriceOf(texts[j]))
    && forall i :: 0 <= i < j && HasDigit(texts[i]) ==> !Qualifies(notified, grade, threshold, PriceOf(texts[i]))
  }

  /** One check of `grade`, from the price texts on the page to the decision. */
  function CheckPricesAndNotify(notified: Notified, grade: string, texts: seq<string>, threshold: int): (d: Decision)
    ensures d.fired <==> d.sent.Some?
    ensures d.fired <==> exists j :: 0 <= j < |texts| && HasDigit(texts[j]) && Qualifies(notified, grade, threshold, PriceOf(texts[j]))
    ensures d.fired ==> exists j: nat :: FirstQualifyingText(notified, grade, threshold, texts, j) && d.sent.value == PriceOf(texts[j])
    ensures d.fired ==> d.notified == notified[grade := d.sent.value]
    ensures !d.fired ==> d.notified == notified && d.sent.None?
  {
    AlertTracesToText(notified, grade, texts, threshold);
    Decide(notified, grade, Extract(texts), threshold)
  }

  /**
   * The decision on extracted prices, restated in terms of the texts they
   * came from: it fires exactly when some text's price qualifies, and then
   * on the first such text in page order.
   */
  lemma AlertTracesToText(notified: Notified, grade: string, texts: seq<string>, threshold: int)
    ensures var d := Decide(notified, grade, Extract(texts), threshold);
      d.fired <==> exists j :: 0 <= j < |texts| && HasDigit(texts[j]) && Qualifies(notified, grade, threshold, PriceOf(texts[j]))
    ensures var d := Decide(notified, grade, Extract(texts), threshold);
      d.fired ==> exists j: nat :: FirstQualifyingText(notified, grade, threshold, texts, j) && d.sent.value == PriceOf(texts[j])
  {
    var d := Decide(notified, grade, Extract(texts), threshold);
    if d.fired {
      var k: nat :| FirstQualifying(notified, grade, threshold, Extract(texts), k) && d.sent.value == Extract(texts)[k];
      FirstPriceIsFirstText(notified, grade, texts, threshold, k);
    }
    if j :| 0 <= j < |texts| && HasDigit(texts[j]) && Qualifies(notified, grade, threshold, PriceOf(texts[j])) {
      QualifyingTextFires(notified, grade, texts, threshold, j);
    }
  }

  /** The first qualifying extracted price is the price of the first qualifying text. */
  lemma FirstPriceIsFirstText(notified: Notified, grade: string, texts: seq<string>, threshold: int, k: nat)
    requires FirstQualifying(notified, grade, threshold, Extract(texts), k)
    ensures k < |Sources(texts)|
    ensures FirstQualifyingText(notified, grade, threshold, texts, Sources(texts)[k])
    ensures Extract(texts)[k] == PriceOf(texts[Sources(texts)[k]])
  {
    var prices := Extract(texts);
    ExtractFollowsSources(texts);
    var ix := Sources(texts);
    var j := ix[k];
    forall i | 0 <= i < j && HasDigit(texts[i])
      ensures !Qualifies(notified, grade, threshold, PriceOf(texts[i]))
    {
      EarlierSource(texts, k, i);
      var m :| 0 <= m < k && ix[m] == i;
      assert !QualifiesFor(notified, grade, threshold)(prices[m]);
      assert prices[m] == PriceOf(texts[i]);
    }
  }

  /** A text whose price qualifies makes the check fire. */
  lemma QualifyingTextFires(notified: Notified, grade: string, texts: seq<string>, threshold: int, j: nat)
    requires j < |texts| && HasDigit(texts[j]) && Qualifies(notified, grade, threshold, PriceOf(texts[j]))
    ensures Decide(notified, grade, Extract(texts), threshold).fired
  {
    var prices := Extract(texts);
    ExtractFollowsSources(texts);
    var ix := Sources(texts);
    assert j in ix;
    var i :| 0 <= i < |ix| && ix[i] == j;
    assert prices[i] == PriceOf(texts[j]);
    assert Qualifies(notified, grade, threshold, prices[i]);
  }

  /**
   * A text whose price is above the threshold is passed over: with 1,500,000
   * before 800,000 and a threshold of 1000000, the alert is for 800000.
   */
  lemma FirstQualifyingTextWins()
    ensures CheckPricesAndNotify(map[], "골드", ["1,500,000 BGSC", "800,000 BGSC"], 1000000).sent == Some(800000)
  {
    assert Grouped(1) == "1";
    assert Grouped(1500) == "1,500";
    assert Grouped(1500000) == "1,500,000";
    assert "1,500,000 BGSC" == Grouped(1500000) + " BGSC";
    assert Grouped(800000) == "800,000";
    assert "800,000 BGSC" == Grouped(800000) + " BGSC";
    assert !HasDigit(" BGSC");
    PriceOfGrouped(1500000, " BGSC");
    PriceOfGrouped(800000, " BGSC");
    var texts := ["1,500,000 BGSC", "800,000 BGSC"];
    var d := CheckPricesAndNotify(map[], "골드", texts, 1000000);
    assert Qualifies(map[], "골드", 1000000, PriceOf(texts[1]));
    var j: nat :| FirstQualifyingText(map[], "골드", 1000000, texts, j) && d.sent.value == PriceOf(texts[j]);
    assert j != 0;
  }

  /**
   * The alert is for the first qualifying price, not the lowest: with
   * 900,000 before 800,000, both within a threshold of 1000000, the alert is
   * for 900000.
   */
  lemma FirstNotLowest()
    ensures CheckPricesAndNotify(map[], "골드", ["900,000 BGSC", "800,000 BGSC"], 1000000).sent == Some(900000)
  {
    assert Grouped(900000) == "900,000";
    assert "900,000 BGSC" == Grouped(900000) + " BGSC";
    assert Grouped(800000) == "800,000";
    assert "800,000 BGSC" == Grouped(800000) + " BGSC";
    assert !HasDigit(" BGSC");
    PriceOfGrouped(900000, " BGSC");
    PriceOfGrouped(800000, " BGSC");
    var texts := ["900,000 BGSC", "800,000 BGSC"];
    var d := CheckPricesAndNotify(map[], "골드", texts, 1000000);
    assert Qualifies(map[], "골드", 1000000, PriceOf(texts[0]));
    var j: nat :| FirstQualifyingText(map[], "골드", 1000000, texts, j) && d.sent.value == PriceOf(texts[j]);
    assert j == 0;
  }

  lemma GroupedExample()
    ensures Grouped(1195000) == "1,195,000"
  {
    assert Render(1) == "1";
    assert Grouped(1) == "1";
    assert Pad3(195) == "195";
    assert Grouped(1195) == "1,195";
    assert Pad3(0) == "000";
  }

  /** A listing text "1,195,000 BGSC" reads as the price 1195000. */
  lemma ExtractsDisplayedPrice()
    ensures Extract(["1,195,000 BGSC"]) == [1195000]
  {
    GroupedExample();
    assert !HasDigit(" BGSC");
    assert "1,195,000 BGSC" == Grouped(1195000) + " BGSC";
    PriceOfGrouped(1195000, " BGSC");
    ExtractOne("1,195,000 BGSC");
  }

  /** A dash or an empty text yields no price at all, not a price of zero. */
  lemma NoDigitsNoPrice()
    ensures Extract(["—", ""]) == []
  {
    assert !HasDigit("—");
    DigitlessDropped([], "—", [""]);
    assert [] + ["—"] + [""] == ["—", ""];
    ExtractOne("");
  }

  /**
   * With a threshold of 1000000, a gold listing at 1,500,000 stays silent and
   * a platinum listing at 800,000 alerts and is recorded.
   */
  lemma GoldSilentPlatinumAlerts()
    ensures var gold := CheckPricesAndNotify(map[], "골드", ["1,500,000 BGSC"], 1000000);
      var platinum := CheckPricesAndNotify(gold.notified, "플래티넘", ["800,000 BGSC"], 1000000);
      !gold.fired && platinum.fired && platinum.sent == Some(800000) &&
      platinum.notified == map["플래티넘" := 800000]
  {
    assert Grouped(1) == "1";
    assert Grouped(1500) == "1,500";
    assert Grouped(1500000) == "1,500,000";
    assert "1,500,000 BGSC" == Grouped(1500000) + " BGSC";
    assert Grouped(800000) == "800,000";
    assert "800,000 BGSC" == Grouped(800000) + " BGSC";
    assert !HasDigit(" BGSC");
    PriceOfGrouped(1500000, " BGSC");
    PriceOfGrouped(800000, " BGSC");
    ExtractOne("1,500,000 BGSC");
    ExtractOne("800,000 BGSC");
  }
}

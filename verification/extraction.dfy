/**
 * Price extraction (monitor.js, `checkPricesAndNotify`): the texts of the
 * price fields of all loaded listing cards, in page order, become a list of
 * prices. Each text loses every non-digit character; texts left empty are
 * dropped; the rest are parsed in base 10.
 */
module Extraction {

  import opened Decimal

  /** The price a text denotes, defined only for texts that keep at least one digit. */
  function PriceOf(t: string): (p: nat)
    requires HasDigit(t)
    ensures p < Pow10(|Digits(t)|)
    ensures p == 0 <==> AllZeros(Digits(t))
  {
    ParseDecimalZeroIff(Digits(t));
    ParseDecimal(Digits(t))
  }

  /** The prices read from the listing texts, in page order. */
  function Extract(texts: seq<string>): (prices: seq<nat>)
    ensures |prices| <= |texts|
    ensures |prices| == |texts| <==> forall i :: 0 <= i < |texts| ==> HasDigit(texts[i])
  {
    if |texts| == 0 then []
    else
      var init := texts[..|texts| - 1];
      var last := texts[|texts| - 1];
      assert forall i :: 0 <= i < |init| ==> init[i] == texts[i];
      if HasDigit(last) then Extract(init) + [PriceOf(last)] else Extract(init)
  }

  /** The positions of the texts that keep a digit, in increasing order. */
  function Sources(texts: seq<string>): (ix: seq<nat>)
    ensures forall i :: 0 <= i < |ix| ==> ix[i] < |texts| && HasDigit(texts[ix[i]])
    ensures forall i, j :: 0 <= i < j < |ix| ==> ix[i] < ix[j]
    ensures forall k :: 0 <= k < |texts| && HasDigit(texts[k]) ==> k in ix
  {
    if |texts| == 0 then []
    else
      var init := texts[..|texts| - 1];
      assert forall i :: 0 <= i < |init| ==> init[i] == texts[i];
      if HasDigit(texts[|texts| - 1]) then Sources(init) + [|texts| - 1] else Sources(init)
  }

  /**
   * Entry `i` of the extracted list is the price of the `i`-th text that has
   * a digit: no entry is invented, dropped (other than digitless texts) or
   * moved.
   */
  lemma {:induction false} ExtractFollowsSources(texts: seq<string>)
    ensures |Extract(texts)| == |Sources(texts)|
    ensures forall i :: 0 <= i < |Sources(texts)| ==>
      Extract(texts)[i] == PriceOf(texts[Sources(texts)[i]])
  {
    if |texts| > 0 {
      var init := texts[..|texts| - 1];
      var last := texts[|texts| - 1];
      ExtractFollowsSources(init);
      var e, ix := Extract(init), Sources(init);
      var e', ix' := Extract(texts), Sources(texts);
      if HasDigit(last) {
        assert e' == e + [PriceOf(last)];
        assert ix' == ix + [|texts| - 1];
      } else {
        assert e' == e;
        assert ix' == ix;
      }
      forall i | 0 <= i < |ix'|
        ensures e'[i] == PriceOf(texts[ix'[i]])
      {
        if i < |ix| {
          assert e'[i] == e[i] && ix'[i] == ix[i];
          assert init[ix[i]] == texts[ix[i]];
        }
      }
    }
  }

  /** A text with a digit before the `k`-th source is an earlier source. */
  lemma EarlierSource(texts: seq<string>, k: nat, i: nat)
    requires k < |Sources(texts)| && i < Sources(texts)[k] && HasDigit(texts[i])
    ensures exists m :: 0 <= m < k && Sources(texts)[m] == i
  {
    var ix := Sources(texts);
    assert i in ix;
    var m :| 0 <= m < |ix| && ix[m] == i;
    assert m < k;
  }

  /** Extraction works text by text: it distributes over concatenation. */
  lemma {:induction false} ExtractAppend(a: seq<string>, b: seq<string>)
    ensures Extract(a + b) == Extract(a) + Extract(b)
  {
    if |b| == 0 {
      assert a + b == a;
    } else {
      var b' := b[..|b| - 1];
      assert (a + b)[..|a + b| - 1] == a + b';
      ExtractAppend(a, b');
    }
  }

  /** A single text yields its price if it has a digit, and nothing at all otherwise. */
  lemma ExtractOne(t: string)
    ensures HasDigit(t) ==> Extract([t]) == [PriceOf(t)]
    ensures !HasDigit(t) ==> Extract([t]) == []
  {
    assert [t][..0] == [];
  }

  /** A text without digits contributes no entry, wherever it stands. */
  lemma DigitlessDropped(a: seq<string>, t: string, b: seq<string>)
    requires !HasDigit(t)
    ensures Extract(a + [t] + b) == Extract(a + b)
  {
    ExtractAppend(a + [t], b);
    ExtractAppend(a, [t]);
    ExtractAppend(a, b);
    ExtractOne(t);
  }

  /**
   * An extracted price is zero only when its source text's digits are all
   * `0`: a missing or unreadable price is never turned into zero.
   */
  lemma ZeroOnlyFromZeros(texts: seq<string>, i: nat)
    requires i < |Sources(texts)|
    ensures i < |Extract(texts)|
    ensures Extract(texts)[i] == 0 <==> AllZeros(Digits(texts[Sources(texts)[i]]))
  {
    ExtractFollowsSources(texts);
    ParseDecimalZeroIff(Digits(texts[Sources(texts)[i]]));
  }

  /** A price displayed with thousands separators and a unit suffix is read back exactly. */
  lemma PriceOfGrouped(n: nat, unit: string)
    requires !HasDigit(unit)
    ensures HasDigit(Grouped(n) + unit)
    ensures PriceOf(Grouped(n) + unit) == n
  {
    var g := Grouped(n);
    DigitsAppend(g, unit);
    assert Digits(g + unit) == Digits(g);
    GroupedHasDigit(n);
    ParseGrouped(n);
  }

  lemma {:induction false} GroupedHasDigit(n: nat)
    ensures HasDigit(Grouped(n))
    decreases n
  {
    var g := Grouped(n);
    if n < 1000 {
      assert IsDigit(g[0]);
    } else {
      GroupedHasDigit(n / 1000);
      var h := Grouped(n / 1000);
      var k :| 0 <= k < |h| && IsDigit(h[k]);
      assert g[k] == h[k];
    }
  }
}

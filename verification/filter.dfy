/**
 * The rarity filter modal (monitor.js, `openFilterModal` and
 * `clickRarityFilter`). The modal is seen as the visible texts of its
 * buttons, in document order, or as absent.
 */
module FilterModal {

  import opened Wrappers
  import opened Search
  import opened Whitespace

  /** The label of the gold grade button, whose presence means the modal has rendered. */
  const GoldLabel: string := "골드"

  function LabelIs(lbl: string): string -> bool {
    text => Trim(text) == lbl
  }

  /** The first button whose trimmed text equals `lbl` exactly. */
  function FindLabel(labels: seq<string>, lbl: string): (r: Option<nat>)
    ensures r.Some? ==> r.value < |labels| && Trim(labels[r.value]) == lbl
    ensures r.Some? ==> forall j :: 0 <= j < r.value ==> Trim(labels[j]) != lbl
    ensures r.None? <==> forall j :: 0 <= j < |labels| ==> Trim(labels[j]) != lbl
  {
    FindFirst(labels, LabelIs(lbl))
  }

  /**
   * The button `clickRarityFilter` clicks: none when the modal is absent,
   * otherwise the first exact match, and none when nothing matches.
   */
  function ClickRarityFilter(modal: Option<seq<string>>, lbl: string): (clicked: Option<nat>)
    ensures clicked.Some? <==> modal.Some? && exists j :: 0 <= j < |modal.value| && Trim(modal.value[j]) == lbl
    ensures clicked.Some? ==> clicked.value < |modal.value| && Trim(modal.value[clicked.value]) == lbl
    ensures clicked.Some? ==> forall j :: 0 <= j < clicked.value ==> Trim(modal.value[j]) != lbl
  {
    match modal
    case None => None
    case Some(labels) => FindLabel(labels, lbl)
  }

  /** The condition `openFilterModal` waits for: the modal exists and shows a gold button. */
  predicate FilterModalReady(modal: Option<seq<string>>) {
    match modal
    case None => false
    case Some(labels) => exists b :: b in labels && Trim(b) == GoldLabel
  }

  /**
   * The wait condition (`some`) holds exactly when clicking the gold filter
   * (`find`) would hit a button.
   */
  lemma ReadyIffGoldClickable(modal: Option<seq<string>>)
    ensures FilterModalReady(modal) <==> ClickRarityFilter(modal, GoldLabel).Some?
  {
    if modal.Some? {
      var c := ClickRarityFilter(modal, GoldLabel);
      if c.Some? {
        assert modal.value[c.value] in modal.value;
      }
    }
  }

  /**
   * Matching is exact after trimming, not by substring: a button reading
   * "골드 이상" is passed over, and one reading " 골드\n" is taken.
   */
  lemma ExactMatchNotSubstring()
    ensures FindLabel(["골드 이상", " 골드\n"], GoldLabel) == Some(1)
  {
    var labels := ["골드 이상", " 골드\n"];
    TrimOfPadded("", "골드 이상", "");
    assert "" + "골드 이상" + "" == labels[0];
    TrimOfPadded(" ", GoldLabel, "\n");
    assert " " + GoldLabel + "\n" == labels[1];
    FindFirstIs(labels, LabelIs(GoldLabel), 1);
  }

  /** Surrounding white space on a button's text never prevents a match. */
  lemma PaddingIgnored(w1: string, w2: string, lbl: string)
    requires AllSpace(w1) && AllSpace(w2) && Bare(lbl)
    ensures FindLabel([w1 + lbl + w2], lbl) == Some(0)
  {
    TrimOfPadded(w1, lbl, w2);
    FindFirstIs([w1 + lbl + w2], LabelIs(lbl), 0);
  }
}

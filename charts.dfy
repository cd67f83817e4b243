/**
 * The two charts of the market-sizing page: their hard-coded data, the six
 * formatter callbacks, and the label strings the page also writes out by hand
 * over the bars, which the callbacks are proved to reproduce.
 */
module Charts {
  import opened JsString
  import opened Decimal
  import opened LabelWrap
  import opened ValueFormat

  // Market-size chart (TAM, SAM, SOM)
  const MarketTooltip := Site("", FixedPlaces(1), false)
  const MarketDataLabel := Site("", FixedPlaces(1), false)
  const MarketTick := Site("", Plain, false)

  // Business-cost chart
  const CostTooltip := Site("Cost: ", FixedPlaces(2), true)
  const CostDataLabel := Site("", FixedPlaces(2), false)
  const CostTick := Site("", Plain, false)

  /** 1500, 731 and 7.3 billion, in hundredths of a billion. */
  const MarketValues: seq<nat> := [150000, 73100, 730]
  const MarketOverlay: seq<string> := ["$1.5T", "$731B", "$7.3B"]

  /** 1460 and 153 billion, in hundredths of a billion. */
  const CostValues: seq<nat> := [146000, 15300]
  const CostOverlay: seq<string> := ["$1.46T", "$153B"]

  const CostCategories: seq<string> :=
    ["Direct Costs to Private Insurers", "Indirect Costs to Employers (Lost Productivity)"]

  function FormatAll(site: Site, values: seq<nat>): (texts: seq<string>)
    ensures |texts| == |values|
  {
    seq(|values|, i requires 0 <= i < |values| => Format(site, values[i]))
  }

  // The amounts the charts print, one rendering at a time.

  lemma OnePointFive()
    ensures FixedText(Dec(150000, 5), 1) == "1.5"
  {
    Pow10Table();
    assert RoundTo(Dec(150000, 5), 1) == Dec(15, 1);
    assert Render(Dec(15, 1)) == PointText(1, 5, 1);
    assert NatDigits(1) == "1" && FixedDigits(5, 1) == "5";
  }

  lemma SevenHundredThirtyOne()
    ensures ShortestText(Dec(73100, 2)) == "731"
  {
    Pow10Table();
    assert Normalize(Dec(73100, 2)) == Dec(731, 0);
    assert Render(Dec(731, 0)) == NatDigits(731);
    assert NatDigits(731) == NatDigits(73) + "1";
    assert NatDigits(73) == NatDigits(7) + "3";
  }

  lemma SevenPointThree()
    ensures ShortestText(Dec(730, 2)) == "7.3"
  {
    Pow10Table();
    assert Normalize(Dec(730, 2)) == Dec(73, 1);
    assert Render(Dec(73, 1)) == PointText(7, 3, 1);
    assert NatDigits(7) == "7" && FixedDigits(3, 1) == "3";
  }

  lemma OnePointFourSix()
    ensures FixedText(Dec(146000, 5), 2) == "1.46"
  {
    Pow10Table();
    assert RoundTo(Dec(146000, 5), 2) == Dec(146, 2);
    assert Render(Dec(146, 2)) == PointText(1, 46, 2);
    assert FixedDigits(46, 2) == FixedDigits(4, 1) + "6";
  }

  lemma OneHundredFiftyThree()
    ensures ShortestText(Dec(15300, 2)) == "153"
  {
    Pow10Table();
    assert Normalize(Dec(15300, 2)) == Dec(153, 0);
    assert Render(Dec(153, 0)) == NatDigits(153);
    assert NatDigits(153) == NatDigits(15) + "3";
    assert NatDigits(15) == NatDigits(1) + "5";
  }

  lemma OnePointZero()
    ensures FixedText(Dec(100000, 5), 1) == "1.0"
  {
    Pow10Table();
    assert RoundTo(Dec(100000, 5), 1) == Dec(10, 1);
    assert Render(Dec(10, 1)) == PointText(1, 0, 1);
  }

  lemma One()
    ensures ShortestText(Dec(100000, 5)) == "1"
  {
    Pow10Table();
    assert Normalize(Dec(100000, 5)) == Dec(1, 0);
    assert Render(Dec(1, 0)) == NatDigits(1);
  }

  lemma NineHundredNinetyNine()
    ensures NatDigits(999) == "999" && FixedDigits(99, 2) == "99"
  {
    Pow10Table();
    assert NatDigits(99) == NatDigits(9) + "9";
    assert NatDigits(999) == NatDigits(99) + "9";
    assert FixedDigits(99, 2) == FixedDigits(9, 1) + "9";
  }

  lemma NineHundredNinetyNinePointNineNine()
    ensures ShortestText(Dec(99999, 2)) == "999.99"
  {
    Pow10Table();
    assert Normalize(Dec(99999, 2)) == Dec(99999, 2);
    assert Render(Dec(99999, 2)) == PointText(999, 99, 2);
    NineHundredNinetyNine();
  }

  // The labels built from them.

  lemma OneAndAHalfTrillion()
    ensures Format(MarketDataLabel, 150000) == "$1.5T"
  {
    Pow10Table();
    OnePointFive();
  }

  lemma SevenHundredThirtyOneBillion()
    ensures Format(MarketDataLabel, 73100) == "$731B"
  {
    Pow10Table();
    SevenHundredThirtyOne();
  }

  lemma SevenPointThreeBillion()
    ensures Format(MarketDataLabel, 730) == "$7.3B"
  {
    Pow10Table();
    SevenPointThree();
  }

  lemma OnePointFourSixTrillion()
    ensures Format(CostDataLabel, 146000) == "$1.46T"
  {
    Pow10Table();
    assert Scale(CostDataLabel, 146000) == Scaled("", Dec(146000, 5), FixedPlaces(2), Trillion, false);
    OnePointFourSix();
  }

  lemma CostOfOnePointFourSixTrillion()
    ensures Format(CostTooltip, 146000) == "Cost: $1.46 Trillion"
  {
    Pow10Table();
    assert Scale(CostTooltip, 146000) == Scaled("Cost: ", Dec(146000, 5), FixedPlaces(2), Trillion, true);
    OnePointFourSix();
  }

  lemma OneHundredFiftyThreeBillion()
    ensures Format(CostDataLabel, 15300) == "$153B"
  {
    Pow10Table();
    assert Scale(CostDataLabel, 15300) == Scaled("", Dec(15300, 2), Plain, Billion, false);
    OneHundredFiftyThree();
  }

  lemma CostOfOneHundredFiftyThreeBillion()
    ensures Format(CostTooltip, 15300) == "Cost: $153 Billion"
  {
    Pow10Table();
    assert Scale(CostTooltip, 15300) == Scaled("Cost: ", Dec(15300, 2), Plain, Billion, true);
    OneHundredFiftyThree();
  }

  /** The market chart's data labels and tooltips print the figures written over its bars. */
  lemma MarketLabelsMatchOverlay()
    ensures FormatAll(MarketDataLabel, MarketValues) == MarketOverlay
    ensures FormatAll(MarketTooltip, MarketValues) == MarketOverlay
  {
    var texts := FormatAll(MarketDataLabel, MarketValues);
    forall i | 0 <= i < |texts| ensures texts[i] == MarketOverlay[i] {
      if i == 0 {
        assert MarketValues[0] == 150000 && MarketOverlay[0] == "$1.5T";
        OneAndAHalfTrillion();
      } else if i == 1 {
        assert MarketValues[1] == 73100 && MarketOverlay[1] == "$731B";
        SevenHundredThirtyOneBillion();
      } else {
        assert MarketValues[2] == 730 && MarketOverlay[2] == "$7.3B";
        SevenPointThreeBillion();
      }
    }
    assert MarketTooltip == MarketDataLabel;
  }

  /** The cost chart's data labels print the figures written beside its bars. */
  lemma CostLabelsMatchOverlay()
    ensures FormatAll(CostDataLabel, CostValues) == CostOverlay
  {
    var texts := FormatAll(CostDataLabel, CostValues);
    forall i | 0 <= i < |texts| ensures texts[i] == CostOverlay[i] {
      if i == 0 {
        assert CostValues[0] == 146000 && CostOverlay[0] == "$1.46T";
        OnePointFourSixTrillion();
      } else {
        assert CostValues[1] == 15300 && CostOverlay[1] == "$153B";
        OneHundredFiftyThreeBillion();
      }
    }
  }

  /** The cost chart's tooltips spell the unit out. */
  lemma CostTooltips()
    ensures FormatAll(CostTooltip, CostValues) == ["Cost: $1.46 Trillion", "Cost: $153 Billion"]
  {
    var texts := FormatAll(CostTooltip, CostValues);
    var expected := ["Cost: $1.46 Trillion", "Cost: $153 Billion"];
    forall i | 0 <= i < |texts| ensures texts[i] == expected[i] {
      if i == 0 {
        assert CostValues[0] == 146000 && expected[0] == "Cost: $1.46 Trillion";
        CostOfOnePointFourSixTrillion();
      } else {
        assert CostValues[1] == 15300 && expected[1] == "Cost: $153 Billion";
        CostOfOneHundredFiftyThreeBillion();
      }
    }
  }

  lemma OnePointZeroTrillion()
    ensures Format(MarketDataLabel, 100000) == "$1.0T"
  {
    Pow10Table();
    OnePointZero();
  }

  lemma OneTrillionTick()
    ensures Format(MarketTick, 100000) == "$1T"
  {
    Pow10Table();
    One();
  }

  lemma NineHundredNinetyNinePointNineNineBillion()
    ensures Format(CostDataLabel, 99999) == "$999.99B"
  {
    Pow10Table();
    NineHundredNinetyNinePointNineNine();
  }

  /** 1000 billion is already shown in trillions; just below it is not. */
  lemma ThresholdIsInclusive()
    ensures Format(MarketDataLabel, 100000) == "$1.0T"
    ensures Format(MarketTick, 100000) == "$1T"
    ensures Format(CostDataLabel, 99999) == "$999.99B"
  {
    OnePointZeroTrillion();
    OneTrillionTick();
    NineHundredNinetyNinePointNineNineBillion();
  }

  /** The words `wrapLabels` splits the two cost categories into. */
  const DirectWords: seq<string> := ["Direct", "Costs", "to", "Private", "Insurers"]
  const IndirectWords: seq<string> := ["Indirect", "Costs", "to", "Employers", "(Lost", "Productivity)"]

  /** The text after each word of the second category. */
  const IndirectTails: seq<string> :=
    [CostCategories[1], "Costs to Employers (Lost Productivity)", "to Employers (Lost Productivity)",
     "Employers (Lost Productivity)", "(Lost Productivity)", "Productivity)"]

  // The spelling of each category, one word at a time. Each fact is a lemma of its
  // own: asserted inside the join proofs they make those proofs far costlier.
  lemma Spelled0() ensures CostCategories[0] == "Direct" + " " + "Costs to Private Insurers" {}
  lemma Spelled1() ensures "Costs to Private Insurers" == "Costs" + " " + "to Private Insurers" {}
  lemma Spelled2() ensures "to Private Insurers" == "to" + " " + "Private Insurers" {}
  lemma Spelled3() ensures "Private Insurers" == "Private" + " " + "Insurers" {}
  lemma Spelled4() ensures CostCategories[1] == "Indirect" + " " + "Costs to Employers (Lost Productivity)" {}
  lemma Spelled5()
    ensures "Costs to Employers (Lost Productivity)" == "Costs" + " " + "to Employers (Lost Productivity)" {}
  lemma Spelled6() ensures "to Employers (Lost Productivity)" == "to" + " " + "Employers (Lost Productivity)" {}
  lemma Spelled7() ensures "Employers (Lost Productivity)" == "Employers" + " " + "(Lost Productivity)" {}
  lemma Spelled8() ensures "(Lost Productivity)" == "(Lost" + " " + "Productivity)" {}

  lemma DirectJoin()
    ensures Join(DirectWords, " ") == CostCategories[0]
  {
    var w := DirectWords;
    var t := [CostCategories[0], "Costs to Private Insurers", "to Private Insurers", "Private Insurers", "Insurers"];
    forall k | 0 <= k < |w| - 1 ensures t[k] == w[k] + " " + t[k + 1] {
      if k == 0 {
        assert w[0] == "Direct" && t[1] == "Costs to Private Insurers";
        Spelled0();
      } else if k == 1 {
        assert w[1] == "Costs" && t[1] == "Costs to Private Insurers" && t[2] == "to Private Insurers";
        Spelled1();
      } else if k == 2 {
        assert w[2] == "to" && t[2] == "to Private Insurers" && t[3] == "Private Insurers";
        Spelled2();
      } else {
        assert w[3] == "Private" && t[3] == "Private Insurers" && t[4] == "Insurers";
        Spelled3();
      }
    }
    JoinFold(w, t, " ");
  }

  lemma IndirectJoin()
    ensures Join(IndirectWords, " ") == CostCategories[1]
  {
    var w, t := IndirectWords, IndirectTails;
    forall k | 0 <= k < |w| - 1 ensures t[k] == w[k] + " " + t[k + 1] {
      if k == 0 {
        assert w[0] == "Indirect" && t[1] == "Costs to Employers (Lost Productivity)";
        Spelled4();
      } else if k == 1 {
        assert w[1] == "Costs" && t[1] == "Costs to Employers (Lost Productivity)";
        assert t[2] == "to Employers (Lost Productivity)";
        Spelled5();
      } else if k == 2 {
        assert w[2] == "to" && t[2] == "to Employers (Lost Productivity)";
        assert t[3] == "Employers (Lost Productivity)";
        Spelled6();
      } else if k == 3 {
        assert w[3] == "Employers" && t[3] == "Employers (Lost Productivity)" && t[4] == "(Lost Productivity)";
        Spelled7();
      } else {
        assert w[4] == "(Lost" && t[4] == "(Lost Productivity)" && t[5] == "Productivity)";
        Spelled8();
      }
    }
    JoinFold(w, t, " ");
  }

  lemma DirectWordsProper()
    ensures ProperWords(DirectWords)
    ensures forall k :: 0 <= k < |DirectWords| ==> ' ' !in DirectWords[k]
  {
    var w := DirectWords;
    forall k | 0 <= k < |w| ensures ProperWord(w[k]) && ' ' !in w[k] {
      if k == 0 { assert w[0] == "Direct"; }
      else if k == 1 { assert w[1] == "Costs"; }
      else if k == 2 { assert w[2] == "to"; }
      else if k == 3 { assert w[3] == "Private"; }
      else { assert w[4] == "Insurers"; }
    }
  }

  lemma IndirectWordsProper()
    ensures ProperWords(IndirectWords)
    ensures forall k :: 0 <= k < |IndirectWords| ==> ' ' !in IndirectWords[k]
  {
    var w := IndirectWords;
    forall k | 0 <= k < |w| ensures ProperWord(w[k]) && ' ' !in w[k] {
      if k == 0 { assert w[0] == "Indirect"; }
      else if k == 1 { assert w[1] == "Costs"; }
      else if k == 2 { assert w[2] == "to"; }
      else if k == 3 { assert w[3] == "Employers"; }
      else if k == 4 { assert w[4] == "(Lost"; }
      else { assert w[5] == "Productivity)"; }
    }
  }

  /** Neither category has a space inside a word, so splitting undoes the join. */
  lemma CategoryWords()
    ensures Split(CostCategories[0], ' ') == DirectWords
    ensures Split(CostCategories[1], ' ') == IndirectWords
  {
    DirectJoin();
    DirectWordsProper();
    SplitJoin(DirectWords, ' ');
    IndirectJoin();
    IndirectWordsProper();
    SplitJoin(IndirectWords, ' ');
  }

  // The greedy lines of each category, one word at a time.

  /** The greedy grouping before each word of the first category, and at the end. */
  const DirectGroupings: seq<Grouping> :=
    [Grouping([], []), Grouping([], ["Direct"]), Grouping([], ["Direct", "Costs"]),
     Grouping([], ["Direct", "Costs", "to"]), Grouping([["Direct", "Costs", "to"]], ["Private"]),
     Grouping([["Direct", "Costs", "to"]], ["Private", "Insurers"])]

  /** The greedy grouping before each word of the second category, and at the end. */
  const IndirectGroupings: seq<Grouping> :=
    [Grouping([], []), Grouping([], ["Indirect"]), Grouping([], ["Indirect", "Costs"]),
     Grouping([["Indirect", "Costs"]], ["to"]), Grouping([["Indirect", "Costs"]], ["to", "Employers"]),
     Grouping([["Indirect", "Costs"], ["to", "Employers"]], ["(Lost"]),
     Grouping([["Indirect", "Costs"], ["to", "Employers"], ["(Lost"]], ["Productivity)"])]

  lemma DirectGroupStep(k: nat)
    requires k < |DirectWords|
    ensures GroupStep(DirectGroupings[k], DirectWords[k]) == DirectGroupings[k + 1]
  {
    var w, g := DirectWords, DirectGroupings;
    if k == 0 {
      assert w[0] == "Direct" && g[0] == Grouping([], []) && g[1] == Grouping([], ["Direct"]);
    } else if k == 1 {
      assert w[1] == "Costs" && g[1] == Grouping([], ["Direct"]) && g[2] == Grouping([], ["Direct", "Costs"]);
      assert Width(["Direct"]) == 6;
    } else if k == 2 {
      assert w[2] == "to" && g[2] == Grouping([], ["Direct", "Costs"]);
      assert g[3] == Grouping([], ["Direct", "Costs", "to"]);
      assert Join(["Direct", "Costs"], " ") == "Direct Costs";
    } else if k == 3 {
      assert w[3] == "Private" && g[3] == Grouping([], ["Direct", "Costs", "to"]);
      assert g[4] == Grouping([["Direct", "Costs", "to"]], ["Private"]);
      assert Join(["Direct", "Costs", "to"], " ") == "Direct Costs to";
    } else {
      assert w[4] == "Insurers" && g[4] == Grouping([["Direct", "Costs", "to"]], ["Private"]);
      assert g[5] == Grouping([["Direct", "Costs", "to"]], ["Private", "Insurers"]);
      assert Width(["Private"]) == 7;
    }
  }

  lemma IndirectGroupStep(k: nat)
    requires k < |IndirectWords|
    ensures GroupStep(IndirectGroupings[k], IndirectWords[k]) == IndirectGroupings[k + 1]
  {
    var w, g := IndirectWords, IndirectGroupings;
    if k == 0 {
      assert w[0] == "Indirect" && g[0] == Grouping([], []) && g[1] == Grouping([], ["Indirect"]);
    } else if k == 1 {
      assert w[1] == "Costs" && g[1] == Grouping([], ["Indirect"]) && g[2] == Grouping([], ["Indirect", "Costs"]);
      assert Width(["Indirect"]) == 8;
    } else if k == 2 {
      assert w[2] == "to" && g[2] == Grouping([], ["Indirect", "Costs"]);
      assert g[3] == Grouping([["Indirect", "Costs"]], ["to"]);
      assert Join(["Indirect", "Costs"], " ") == "Indirect Costs";
    } else if k == 3 {
      assert w[3] == "Employers" && g[3] == Grouping([["Indirect", "Costs"]], ["to"]);
      assert g[4] == Grouping([["Indirect", "Costs"]], ["to", "Employers"]);
      assert Width(["to"]) == 2;
    } else if k == 4 {
      assert w[4] == "(Lost" && g[4] == Grouping([["Indirect", "Costs"]], ["to", "Employers"]);
      assert g[5] == Grouping([["Indirect", "Costs"], ["to", "Employers"]], ["(Lost"]);
      assert Join(["to", "Employers"], " ") == "to Employers";
    } else {
      assert w[5] == "Productivity)" && g[5] == Grouping([["Indirect", "Costs"], ["to", "Employers"]], ["(Lost"]);
      assert g[6] == Grouping([["Indirect", "Costs"], ["to", "Employers"], ["(Lost"]], ["Productivity)"]);
      assert Width(["(Lost"]) == 5;
    }
  }

  lemma DirectGreedy()
    ensures Greedy(DirectWords) == [["Direct", "Costs", "to"], ["Private", "Insurers"]]
  {
    forall k | 0 <= k < |DirectWords|
      ensures GroupStep(DirectGroupings[k], DirectWords[k]) == DirectGroupings[k + 1]
    {
      DirectGroupStep(k);
    }
    GroupScanFold(DirectWords, DirectGroupings);
  }

  lemma IndirectGreedy()
    ensures Greedy(IndirectWords) == [["Indirect", "Costs"], ["to", "Employers"], ["(Lost"], ["Productivity)"]]
  {
    forall k | 0 <= k < |IndirectWords|
      ensures GroupStep(IndirectGroupings[k], IndirectWords[k]) == IndirectGroupings[k + 1]
    {
      IndirectGroupStep(k);
    }
    GroupScanFold(IndirectWords, IndirectGroupings);
  }

  lemma DirectLines()
    ensures JoinEach([["Direct", "Costs", "to"], ["Private", "Insurers"]]) == ["Direct Costs to", "Private Insurers"]
  {
    var groups := [["Direct", "Costs", "to"], ["Private", "Insurers"]];
    assert Join(groups[0], " ") == "Direct Costs to";
    assert Join(groups[1], " ") == "Private Insurers";
  }

  lemma IndirectLines()
    ensures JoinEach([["Indirect", "Costs"], ["to", "Employers"], ["(Lost"], ["Productivity)"]])
         == ["Indirect Costs", "to Employers", "(Lost", "Productivity)"]
  {
    var groups := [["Indirect", "Costs"], ["to", "Employers"], ["(Lost"], ["Productivity)"]];
    assert Join(groups[0], " ") == "Indirect Costs";
    assert Join(groups[1], " ") == "to Employers";
    assert Join(groups[2], " ") == "(Lost";
    assert Join(groups[3], " ") == "Productivity)";
  }

  lemma DirectWrapped()
    ensures WrapWords(DirectWords) == ["Direct Costs to", "Private Insurers"]
  {
    DirectWordsProper();
    WrapWordsIsGreedy(DirectWords);
    DirectGreedy();
    DirectLines();
  }

  lemma IndirectWrapped()
    ensures WrapWords(IndirectWords) == ["Indirect Costs", "to Employers", "(Lost", "Productivity)"]
  {
    IndirectWordsProper();
    WrapWordsIsGreedy(IndirectWords);
    IndirectGreedy();
    IndirectLines();
  }

  /** `wrapLabels` on the cost chart's two categories. */
  lemma CostCategoriesWrap()
    ensures WrapLabel(Text(CostCategories[0])) == Lines(["Direct Costs to", "Private Insurers"])
    ensures WrapLabel(Text(CostCategories[1]))
         == Lines(["Indirect Costs", "to Employers", "(Lost", "Productivity)"])
  {
    CategoryWords();
    DirectWrapped();
    IndirectWrapped();
    assert |CostCategories[0]| > MaxLen && |CostCategories[1]| > MaxLen;
  }

  /** Both categories are well spaced, so the general wrapping theorems apply to them. */
  lemma CategoriesWellSpaced()
    ensures WellSpaced(CostCategories[0]) && WellSpaced(CostCategories[1])
  {
    CategoryWords();
    DirectWordsProper();
    IndirectWordsProper();
  }

  /** The cost chart's tooltip titles show its categories as written. */
  lemma CostTitlesRoundTrip(i: nat)
    requires i < |CostCategories|
    ensures TooltipTitle(WrapLabel(Text(CostCategories[i]))) == Text(CostCategories[i])
  {
    var category := CostCategories[i];
    CategoriesWellSpaced();
    assert WellSpaced(category);
    TitleOfWrapped(Text(category));
  }
}

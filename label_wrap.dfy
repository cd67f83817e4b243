/**
 * The business-cost chart's category labels: `wrapLabels` breaks a long
 * label into lines of at most 16 characters by greedily packing its words,
 * and the tooltip title joins such lines back with single spaces.
 *
 * `Scan` is the loop of `wrapLabels` as a fold over the words and
 * `WrapLabels` is the loop itself, proved to compute it. `Greedy` is an
 * independent statement of greedy line filling over whole words; for a
 * well-spaced label the two agree, and the properties of the wrapped lines
 * (whole words in order, the 16-character bound, maximality, the join
 * round trip) are proved from it.
 */
module LabelWrap {
  import opened JsString

  /** The longest line `wrapLabels` aims for. */
  const MaxLen: nat := 16

  /** A value on the chart's category axis: a string, an array of lines, or anything else. */
  datatype ChartLabel = Text(text: string) | Lines(lines: seq<string>) | Other(raw: int)

  /** State of the wrapping loop: the lines pushed so far and the line being filled. */
  datatype Packing = Packing(lines: seq<string>, current: string)

  /** One iteration of the loop over the words. */
  function Step(p: Packing, word: string): Packing {
    if |Trim(p.current + " " + word)| > MaxLen && |p.current| > 0 then
      Packing(p.lines + [p.current], word)
    else
      Packing(p.lines, if p.current != "" then p.current + " " + word else word)
  }

  /** The loop's state after it has visited `words`, starting from no lines and an empty line. */
  function Scan(words: seq<string>): (p: Packing)
    ensures forall k :: 0 <= k < |p.lines| ==> p.lines[k] != ""
  {
    if words == [] then Packing([], "")
    else Step(Scan(words[..|words| - 1]), words[|words| - 1])
  }

  /** The line still being filled is pushed when it is not empty. */
  function Flush(p: Packing): seq<string> {
    if p.current != "" then p.lines + [p.current] else p.lines
  }

  /** The lines `wrapLabels` returns for the words of a long label. */
  function WrapWords(words: seq<string>): (lines: seq<string>)
    ensures forall k :: 0 <= k < |lines| ==> lines[k] != ""
  {
    Flush(Scan(words))
  }

  /** The scan of one more word is one more step. */
  lemma ScanSnoc(words: seq<string>, k: nat)
    requires k < |words|
    ensures Scan(words[..k + 1]) == Step(Scan(words[..k]), words[k])
  {
    assert words[..k + 1][..k] == words[..k];
  }

  /** `wrapLabels(label)`. */
  function WrapLabel(category: ChartLabel): (r: ChartLabel)
    ensures !category.Text? || |category.text| <= MaxLen ==> r == category
    ensures category.Text? && |category.text| > MaxLen ==>
      r.Lines? && forall k :: 0 <= k < |r.lines| ==> r.lines[k] != ""
  {
    if !category.Text? || |category.text| <= MaxLen then category
    else Lines(WrapWords(Split(category.text, ' ')))
  }

  /** `wrapLabels` as the page writes it: a loop that reassigns the current line and pushes lines. */
  method WrapLabels(category: ChartLabel) returns (r: ChartLabel)
    ensures r == WrapLabel(category)
  {
    if !category.Text? || |category.text| <= MaxLen {
      return category;
    }
    var words := Split(category.text, ' ');
    var currentLine := "";
    var lines: seq<string> := [];
    for i := 0 to |words|
      invariant Packing(lines, currentLine) == Scan(words[..i])
    {
      var word := words[i];
      ghost var next := Step(Packing(lines, currentLine), word);
      ScanSnoc(words, i);
      if |Trim(currentLine + " " + word)| > MaxLen && |currentLine| > 0 {
        lines := lines + [currentLine];
        currentLine := word;
      } else {
        currentLine := if currentLine != "" then currentLine + " " + word else word;
      }
      assert Packing(lines, currentLine) == next;
    }
    assert words[..|words|] == words;
    if currentLine != "" {
      lines := lines + [currentLine];
    }
    r := Lines(lines);
  }

  /** The tooltip title: an array label is joined with single spaces, anything else is shown as is. */
  function TooltipTitle(category: ChartLabel): ChartLabel {
    if category.Lines? then Text(Join(category.lines, " ")) else category
  }

  // ---------------------------------------------------------------------
  // Greedy line filling over whole words

  /** A word `trim` leaves alone at either end of a line. */
  predicate ProperWord(w: string) {
    |w| > 0 && !IsWhitespace(w[0]) && !IsWhitespace(w[|w| - 1])
  }

  predicate ProperWords(words: seq<string>) {
    forall i :: 0 <= i < |words| ==> ProperWord(words[i])
  }

  /** A label made of non-empty words separated by single spaces, with no other whitespace at a word's ends. */
  predicate WellSpaced(s: string) {
    ProperWords(Split(s, ' '))
  }

  /** The length of a line made of `group`'s words. */
  function Width(group: seq<string>): nat {
    |Join(group, " ")|
  }

  function Concat(groups: seq<seq<string>>): seq<string> {
    if groups == [] then [] else Concat(groups[..|groups| - 1]) + groups[|groups| - 1]
  }

  function JoinEach(groups: seq<seq<string>>): (lines: seq<string>)
    ensures |lines| == |groups|
  {
    seq(|groups|, k requires 0 <= k < |groups| => Join(groups[k], " "))
  }

  function SplitEach(lines: seq<string>): (groups: seq<seq<string>>)
    ensures |groups| == |lines|
  {
    seq(|lines|, k requires 0 <= k < |lines| => Split(lines[k], ' '))
  }

  /** Closed lines of words and the line being filled. */
  datatype Grouping = Grouping(closed: seq<seq<string>>, open: seq<string>)

  /** A word goes on the open line unless that line is non-empty and would become too long. */
  function GroupStep(g: Grouping, word: string): Grouping {
    if g.open != [] && Width(g.open) + 1 + |word| > MaxLen then Grouping(g.closed + [g.open], [word])
    else Grouping(g.closed, g.open + [word])
  }

  function GroupScan(words: seq<string>): Grouping {
    if words == [] then Grouping([], [])
    else GroupStep(GroupScan(words[..|words| - 1]), words[|words| - 1])
  }

  /** `GroupScan` is the left fold of `GroupStep`: a run of states each one step from the last ends where it does. */
  lemma {:induction false} GroupScanFold(words: seq<string>, states: seq<Grouping>)
    requires |states| == |words| + 1 && states[0] == Grouping([], [])
    requires forall k :: 0 <= k < |words| ==> GroupStep(states[k], words[k]) == states[k + 1]
    ensures GroupScan(words) == states[|words|]
  {
    if words != [] {
      var n := |words| - 1;
      GroupScanFold(words[..n], states[..n + 1]);
    }
  }

  /** The closed lines followed by the open one, when it has words. */
  function AllLines(g: Grouping): seq<seq<string>> {
    if g.open == [] then g.closed else g.closed + [g.open]
  }

  /** Greedy line filling: the lines of words, each as long as the limit lets it be. */
  function Greedy(words: seq<string>): seq<seq<string>> {
    AllLines(GroupScan(words))
  }

  /**
   * `groups` lays out `words` as greedy lines: whole words in their order, no empty
   * line, a line over the limit only when it holds one word, and no line could have
   * taken the next line's first word.
   */
  ghost predicate GreedyLayout(words: seq<string>, groups: seq<seq<string>>) {
    && Concat(groups) == words
    && (forall k :: 0 <= k < |groups| ==> groups[k] != [])
    && (forall k :: 0 <= k < |groups| ==> |groups[k]| > 1 ==> Width(groups[k]) <= MaxLen)
    && (forall k :: 0 < k < |groups| ==> Width(groups[k - 1]) + 1 + |groups[k][0]| > MaxLen)
  }

  lemma JoinSnocWidth(group: seq<string>, word: string)
    requires group != []
    ensures Width(group + [word]) == Width(group) + 1 + |word|
  {
    JoinAppend(group, [word], " ");
  }

  /** A word too long for the last line starts a line of its own. */
  lemma CloseLine(words: seq<string>, before: seq<seq<string>>, w: string)
    requires GreedyLayout(words, before) && before != []
    requires Width(before[|before| - 1]) + 1 + |w| > MaxLen
    ensures GreedyLayout(words + [w], before + [[w]])
  {
    var after := before + [[w]];
    assert after[..|after| - 1] == before;
  }

  /** A word that fits goes on the last line. */
  lemma ExtendLine(words: seq<string>, closed: seq<seq<string>>, open: seq<string>, w: string)
    requires GreedyLayout(words, closed + [open]) && open != []
    requires Width(open) + 1 + |w| <= MaxLen
    ensures GreedyLayout(words + [w], closed + [open + [w]])
  {
    JoinSnocWidth(open, w);
    var before, after := closed + [open], closed + [open + [w]];
    assert after[..|after| - 1] == closed;
    assert before[..|before| - 1] == closed;
    assert Concat(after) == Concat(closed) + open + [w];
    forall k | 0 < k < |after| ensures Width(after[k - 1]) + 1 + |after[k][0]| > MaxLen {
      assert after[k - 1] == before[k - 1] && after[k][0] == before[k][0];
    }
  }

  /** The first word of all opens the first line. */
  lemma FirstLine(w: string)
    ensures GreedyLayout([w], [[w]])
  {
    assert [[w]][..0] == [];
    assert Concat([[w]]) == [w];
  }

  /** One greedy step keeps the groups a greedy layout of the words seen so far. */
  lemma GroupStepLayout(words: seq<string>, g: Grouping)
    requires words != []
    requires g.open == [] <==> words[..|words| - 1] == []
    requires GreedyLayout(words[..|words| - 1], AllLines(g))
    ensures GroupStep(g, words[|words| - 1]).open != []
    ensures GreedyLayout(words, AllLines(GroupStep(g, words[|words| - 1])))
  {
    var prefix, w := words[..|words| - 1], words[|words| - 1];
    assert prefix + [w] == words;
    if g.open == [] {
      assert words == [w] && AllLines(GroupStep(g, w)) == [[w]];
      FirstLine(w);
    } else if Width(g.open) + 1 + |w| > MaxLen {
      assert AllLines(GroupStep(g, w)) == AllLines(g) + [[w]];
      CloseLine(prefix, AllLines(g), w);
    } else {
      assert AllLines(GroupStep(g, w)) == g.closed + [g.open + [w]];
      ExtendLine(prefix, g.closed, g.open, w);
    }
  }

  /** What holds of the groups at every point of the scan. */
  lemma {:induction false} GroupScanLayout(words: seq<string>)
    ensures GroupScan(words).open == [] <==> words == []
    ensures GreedyLayout(words, AllLines(GroupScan(words)))
  {
    if words != [] {
      GroupScanLayout(words[..|words| - 1]);
      GroupStepLayout(words, GroupScan(words[..|words| - 1]));
    }
  }

  /** The greedy lines of any list of words are a greedy layout of it. */
  lemma GreedyIsLayout(words: seq<string>)
    ensures GreedyLayout(words, Greedy(words))
    ensures words != [] ==> Greedy(words) != []
  {
    GroupScanLayout(words);
  }

  lemma JoinEachSnoc(groups: seq<seq<string>>, group: seq<string>)
    ensures JoinEach(groups + [group]) == JoinEach(groups) + [Join(group, " ")]
  {
    var a, b := JoinEach(groups + [group]), JoinEach(groups) + [Join(group, " ")];
    forall k | 0 <= k < |a| ensures a[k] == b[k] {
      if k < |groups| {
        assert (groups + [group])[k] == groups[k];
      }
    }
  }

  /** One word: the loop's step on the joined lines is the greedy step on the groups. */
  lemma StepIsGroupStep(p: Packing, g: Grouping, w: string)
    requires p == Packing(JoinEach(g.closed), Join(g.open, " "))
    requires g.open != [] ==> ProperWord(g.open[0])
    requires ProperWord(w)
    ensures Step(p, w) == Packing(JoinEach(GroupStep(g, w).closed), Join(GroupStep(g, w).open, " "))
    ensures GroupStep(g, w).open != [] && ProperWord(GroupStep(g, w).open[0])
  {
    if g.open == [] {
      assert p.current == "";
      assert Step(p, w) == Packing(p.lines, w);
    } else {
      JoinFirst(g.open, " ");
      JoinAppend(g.open, [w], " ");
      var line := p.current + " " + w;
      assert line == Join(g.open + [w], " ");
      assert line[0] == g.open[0][0];
      assert line[|line| - 1] == w[|w| - 1];
      TrimUnchanged(line);
      assert |Trim(line)| == Width(g.open) + 1 + |w|;
      if Width(g.open) + 1 + |w| > MaxLen {
        JoinEachSnoc(g.closed, g.open);
        assert Step(p, w) == Packing(p.lines + [p.current], w);
      } else {
        assert Step(p, w) == Packing(p.lines, line);
      }
    }
  }

  /** On proper words the loop's state is the greedy groups, joined with spaces. */
  lemma {:induction false} ScanIsGreedy(words: seq<string>)
    requires ProperWords(words)
    ensures Scan(words) == Packing(JoinEach(GroupScan(words).closed), Join(GroupScan(words).open, " "))
    ensures GroupScan(words).open == [] <==> words == []
    ensures GroupScan(words).open != [] ==> ProperWord(GroupScan(words).open[0])
  {
    if words != [] {
      var prefix, w := words[..|words| - 1], words[|words| - 1];
      assert ProperWords(prefix);
      ScanIsGreedy(prefix);
      assert Scan(words) == Step(Scan(prefix), w);
      assert GroupScan(words) == GroupStep(GroupScan(prefix), w);
      StepIsGroupStep(Scan(prefix), GroupScan(prefix), w);
    }
  }

  /** On proper words `wrapLabels` returns the greedy lines joined with spaces. */
  lemma WrapWordsIsGreedy(words: seq<string>)
    requires ProperWords(words)
    ensures WrapWords(words) == JoinEach(Greedy(words))
  {
    ScanIsGreedy(words);
    var g := GroupScan(words);
    if g.open != [] {
      JoinFirst(g.open, " ");
      JoinEachSnoc(g.closed, g.open);
    }
  }

  /** Joining the joins of non-empty groups is joining all their words. */
  lemma {:induction false} JoinJoinEach(groups: seq<seq<string>>)
    requires forall k :: 0 <= k < |groups| ==> groups[k] != []
    ensures Join(JoinEach(groups), " ") == Join(Concat(groups), " ")
  {
    if |groups| > 1 {
      var init, last := groups[..|groups| - 1], groups[|groups| - 1];
      JoinJoinEach(init);
      assert init + [last] == groups;
      JoinEachSnoc(init, last);
      JoinAppend(JoinEach(init), [Join(last, " ")], " ");
      assert init != [] && init[0] != [];
      assert Concat(init) != [] by { ConcatNonEmpty(init); }
      JoinAppend(Concat(init), last, " ");
    } else if |groups| == 1 {
      assert groups[..0] == [];
      assert Concat(groups) == groups[0];
      assert JoinEach(groups) == [Join(groups[0], " ")];
    }
  }

  lemma {:induction false} ConcatNonEmpty(groups: seq<seq<string>>)
    requires groups != [] && groups[0] != []
    ensures Concat(groups) != []
  {
    if |groups| > 1 {
      ConcatNonEmpty(groups[..|groups| - 1]);
    }
  }

  /** Splitting each joined group at its spaces recovers the groups, when no word holds a space. */
  lemma {:induction false} SplitEachJoinEach(groups: seq<seq<string>>)
    requires forall k :: 0 <= k < |groups| ==> groups[k] != []
    requires forall k, i :: 0 <= k < |groups| && 0 <= i < |groups[k]| ==> ' ' !in groups[k][i]
    ensures SplitEach(JoinEach(groups)) == groups
  {
    forall k | 0 <= k < |groups| ensures SplitEach(JoinEach(groups))[k] == groups[k] {
      SplitJoin(groups[k], ' ');
    }
  }

  /** A word of `Concat(groups)` lies in one of the groups, and the other way round. */
  lemma {:induction false} ConcatWords(groups: seq<seq<string>>, k: nat, i: nat)
    requires k < |groups| && i < |groups[k]|
    ensures groups[k][i] in Concat(groups)
  {
    if k < |groups| - 1 {
      ConcatWords(groups[..|groups| - 1], k, i);
    }
  }

  /** Greedy groups of words without spaces, each joined with spaces, as lines of text. */
  lemma JoinedLayout(words: seq<string>, groups: seq<seq<string>>)
    requires GreedyLayout(words, groups)
    requires forall i :: 0 <= i < |words| ==> ' ' !in words[i]
    ensures var lines := JoinEach(groups);
      && SplitEach(lines) == groups
      && Join(lines, " ") == Join(words, " ")
      && (forall k :: 0 <= k < |lines| ==> |lines[k]| > MaxLen ==> ' ' !in lines[k])
      && (forall k :: 0 < k < |lines| ==> |lines[k - 1]| + 1 + |Split(lines[k], ' ')[0]| > MaxLen)
  {
    var lines := JoinEach(groups);
    forall k, i | 0 <= k < |groups| && 0 <= i < |groups[k]| ensures ' ' !in groups[k][i] {
      ConcatWords(groups, k, i);
    }
    SplitEachJoinEach(groups);
    JoinJoinEach(groups);
    forall k | 0 <= k < |lines| && |lines[k]| > MaxLen ensures ' ' !in lines[k] {
      assert |groups[k]| == 1;
      assert lines[k] == groups[k][0];
    }
    forall k | 0 < k < |lines| ensures |lines[k - 1]| + 1 + |Split(lines[k], ' ')[0]| > MaxLen {
      assert Split(lines[k], ' ') == SplitEach(lines)[k] == groups[k];
    }
  }

  /** A long label is wrapped into its greedy groups of words, joined with spaces. */
  lemma WrapLabelGroups(s: string)
    requires WellSpaced(s) && |s| > MaxLen
    ensures WrapLabel(Text(s)) == Lines(JoinEach(Greedy(Split(s, ' '))))
  {
    WrapWordsIsGreedy(Split(s, ' '));
  }

  /**
   * What `wrapLabels` promises for a long well-spaced label: an array of non-empty
   * lines whose words, read in order, are the label's words; joined with single
   * spaces they give the label back; a line over 16 characters is a single word;
   * and no line could have taken the next line's first word.
   */
  lemma WrapLabelLayout(s: string)
    requires WellSpaced(s) && |s| > MaxLen
    ensures WrapLabel(Text(s)).Lines?
    ensures var lines := WrapLabel(Text(s)).lines;
      && |lines| >= 1
      && (forall k :: 0 <= k < |lines| ==> lines[k] != "")
      && Concat(SplitEach(lines)) == Split(s, ' ')
      && Join(lines, " ") == s
      && (forall k :: 0 <= k < |lines| ==> |lines[k]| > MaxLen ==> ' ' !in lines[k])
      && (forall k :: 0 < k < |lines| ==> |lines[k - 1]| + 1 + |Split(lines[k], ' ')[0]| > MaxLen)
  {
    var words := Split(s, ' ');
    var groups := Greedy(words);
    WrapLabelGroups(s);
    GreedyIsLayout(words);
    JoinedLayout(words, groups);
    JoinSplit(s, ' ');
  }

  /** The tooltip title of a wrapped label is the label itself. */
  lemma TitleOfWrapped(category: ChartLabel)
    requires !category.Lines?
    requires category.Text? && |category.text| > MaxLen ==> WellSpaced(category.text)
    ensures TooltipTitle(WrapLabel(category)) == category
  {
    if category.Text? && |category.text| > MaxLen {
      WrapLabelLayout(category.text);
    }
  }
}

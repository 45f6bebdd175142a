/** The text-to-rows part of `extract_data`: from the texts of the paragraphs
    found in the content container to the list of `[rank, name, revenue]` rows. */
module Extract {
  import opened Results
  import opened Text
  import opened Decimal
  import Revenue
  import opened Pattern
  import opened Seqs

  /** The record delimiter: every revenue figure in the article ends in ".000". */
  const Delimiter := ".000"
  /** A paragraph starting with this introduces the list instead of holding it. */
  const Preamble := "Berikut daftar"

  /** One output row, `[nomor, nama, pendapatan]`. */
  datatype Row = Row(rank: nat, name: string, revenue: nat)

  datatype Error =
    | TextUnbound                           // `text` was never assigned: UnboundLocalError
    | InvalidRevenue(cause: Revenue.Error)  // `int('')` inside `revenue_transform`

  /** What the loop over paragraphs leaves in `text`. Each iteration assigns
      `text` before it tests for the preamble, and the `continue` skips
      nothing, so the loop ends holding the last paragraph whatever it says. */
  function TextAfterLoop(paragraphs: seq<string>, text: Option<string>): (r: Option<string>)
    ensures |paragraphs| == 0 ==> r == text
    ensures |paragraphs| > 0 ==> r == Some(paragraphs[|paragraphs| - 1])
    decreases |paragraphs|
  {
    if |paragraphs| == 0 then text
    else
      var text' := Some(paragraphs[0]);
      if StartsWith(paragraphs[0], Preamble) then TextAfterLoop(paragraphs[1..], text')
      else TextAfterLoop(paragraphs[1..], text')
  }

  /** `list(filter(None, text.split('.000')))` */
  function Segments(text: string): (r: seq<string>)
    ensures |r| <= |Split(text, Delimiter)|
    ensures forall i :: 0 <= i < |r| ==> r[i] != "" && !Contains(r[i], Delimiter)
  {
    NonEmpty(Split(text, Delimiter))
  }

  /** The groups of a segment the pattern matches; nothing for one it rejects. */
  function Captured(segment: string): (r: seq<Groups>)
    ensures |r| <= 1
    ensures |r| == 1 <==> Capture(segment).Some?
    ensures forall i :: 0 <= i < |r| ==> WellFormed(r[i])
  {
    match Capture(segment)
    case None => []
    case Some(g) => [g]
  }

  /** The groups of every segment the pattern matches, in segment order. */
  function Matched(segments: seq<string>): (r: seq<Groups>)
    ensures |r| <= |segments|
  {
    forall i | 0 <= i < |segments|
      ensures |Captured(segments[i])| <= 1
    {
    }
    FlatMapAtMostOne(Captured, segments);
    FlatMap(Captured, segments)
  }

  /** `row` is what the code builds from the groups `g`: `int(group(1))`,
      `group(2)` untrimmed, and `revenue_transform(group(3))`, here by the
      reading the revenue text denotes (`Revenue.TransformDenotes`). */
  predicate Converts(g: Groups, row: Row) {
    && WellFormed(g)
    && row.rank == Value(g.rank)
    && row.name == g.name
    && Revenue.Denotes(g.revenue, row.revenue)
  }

  /** Every captured revenue has a digit, so `int()` accepts all of them. */
  predicate AllConvertible(gs: seq<Groups>) {
    forall i :: 0 <= i < |gs| ==> Revenue.HasDigit(gs[i].revenue)
  }

  /** The rows are the captured groups converted one by one, in order. */
  predicate Corresponds(gs: seq<Groups>, rows: seq<Row>) {
    Pairwise(Converts, gs, rows)
  }

  /** Row by row: the `i`-th row is built from the `i`-th captured groups. */
  lemma CorrespondsAt(gs: seq<Groups>, rows: seq<Row>)
    requires Corresponds(gs, rows)
    ensures |gs| == |rows|
    ensures forall i :: 0 <= i < |gs| ==> Converts(gs[i], rows[i])
  {
    PairwiseAt(Converts, gs, rows);
  }

  lemma CorrespondsCons(g: Groups, row: Row, gs: seq<Groups>, rows: seq<Row>)
    requires Converts(g, row) && Corresponds(gs, rows)
    ensures Corresponds([g] + gs, [row] + rows)
  {
    assert ([g] + gs)[1..] == gs;
    assert ([row] + rows)[1..] == rows;
  }

  /** `[int(group(1)), group(2), revenue_transform(group(3))]`, or the
      `ValueError` from `int('')` when the revenue has no digit. */
  function GroupRows(g: Groups): (r: Result<seq<Row>, Error>)
    requires WellFormed(g)
    ensures MeetsSpec([g], r)
  {
    match Revenue.Transform(g.revenue)
    case Failure(e) =>
      assert [g][0] == g;
      Failure(InvalidRevenue(e))
    case Success(revenue) =>
      var row := Row(ParseInt(g.rank).value, g.name, revenue);
      Revenue.TransformDenotes(g.revenue, revenue);
      ConvertsRow(g, row);
      Success([row])
  }

  lemma ConvertsRow(g: Groups, row: Row)
    requires Converts(g, row)
    ensures MeetsSpec([g], Success([row]))
  {
    assert Revenue.HasDigit(g.revenue);
    assert [g][0] == g;
    assert AllConvertible([g]);
    CorrespondsCons(g, row, [], []);
  }

  /** One pass of the loop over the segments: a segment the pattern rejects
      adds nothing, a matching one adds the row its groups give. */
  function SegmentRows(segment: string): (r: Result<seq<Row>, Error>)
    ensures MeetsSpec(Captured(segment), r)
  {
    match Capture(segment)
    case None => Success([])
    case Some(g) => GroupRows(g)
  }

  /** The loop over the segments, in order; the first error raised ends the
      whole extraction. */
  function Rows(segments: seq<string>): (r: Result<seq<Row>, Error>)
    ensures r.Success? <==> AllConvertible(Matched(segments))
    ensures r.Failure? ==> r.error == InvalidRevenue(Revenue.InvalidLiteral(""))
    ensures r.Success? ==> Corresponds(Matched(segments), r.value)
    decreases |segments|
  {
    if |segments| == 0 then Success([])
    else
      var here := SegmentRows(segments[0]);
      var rest := Rows(segments[1..]);
      ThenMeetsSpec(Captured(segments[0]), here, Matched(segments[1..]), rest);
      Then(here, rest)
  }

  /** `extract_data` from the container's paragraph texts on; `None` stands
      for a page without the content container. */
  function Extract(container: Option<seq<string>>): (r: Result<seq<Row>, Error>)
    ensures r == Failure(TextUnbound) <==> container.None? || |container.value| == 0
    ensures container.Some? && |container.value| > 0 ==>
      var segments := Segments(container.value[|container.value| - 1]);
      r.Success? ==> |r.value| == |Matched(segments)| <= |segments|
    ensures container.Some? && |container.value| > 0 && r.Success? ==>
      Corresponds(Matched(Segments(container.value[|container.value| - 1])), r.value)
  {
    match container
    case None => Failure(TextUnbound)
    case Some(paragraphs) =>
      match TextAfterLoop(paragraphs, None)
      case None => Failure(TextUnbound)
      case Some(text) =>
        assert text == paragraphs[|paragraphs| - 1];
        var segments := Segments(text);
        var r := Rows(segments);
        assert r.Success? ==> Corresponds(Matched(segments), r.value);
        assert |Matched(segments)| <= |segments|;
        r
  }

  /** Only the last paragraph is ever read: two containers that end in the
      same paragraph give the same result, whatever comes before. */
  lemma ExtractReadsLastParagraphOnly(paragraphs: seq<string>, others: seq<string>)
    requires |paragraphs| > 0 && |others| > 0
    requires paragraphs[|paragraphs| - 1] == others[|others| - 1]
    ensures Extract(Some(paragraphs)) == Extract(Some(others))
  {
    assert TextAfterLoop(paragraphs, None) == TextAfterLoop(others, None);
  }

  /** The preamble test skips nothing: a last paragraph that starts with
      "Berikut daftar" is split and matched like any other. */
  lemma PreambleStillParsed(paragraphs: seq<string>)
    requires |paragraphs| > 0 && StartsWith(paragraphs[|paragraphs| - 1], Preamble)
    ensures Extract(Some(paragraphs)) == Rows(Segments(paragraphs[|paragraphs| - 1]))
  {
    assert TextAfterLoop(paragraphs, None) == Some(paragraphs[|paragraphs| - 1]);
  }

  // The evidently intended extraction, with the split and the matching
  // inside the loop over paragraphs.

  /** Combining the outcomes of two consecutive stretches of the loop: the
      first error raised wins, otherwise the rows follow each other. */
  function Then(first: Result<seq<Row>, Error>, second: Result<seq<Row>, Error>): (r: Result<seq<Row>, Error>)
    ensures r.Success? <==> first.Success? && second.Success?
    ensures r.Failure? ==> r.error == if first.Failure? then first.error else second.error
    ensures r.Success? ==> r.value == first.value + second.value
  {
    match first
    case Failure(e) => Failure(e)
    case Success(a) =>
      match second
      case Failure(e) => Failure(e)
      case Success(b) => Success(a + b)
  }

  /** Where the loop is cut into stretches does not matter. */
  lemma ThenAssociative(a: Result<seq<Row>, Error>, b: Result<seq<Row>, Error>, c: Result<seq<Row>, Error>)
    ensures Then(Then(a, b), c) == Then(a, Then(b, c))
  {
    if a.Success? && b.Success? && c.Success? {
      assert (a.value + b.value) + c.value == a.value + (b.value + c.value);
    }
  }

  /** The groups the corrected loop meets in one paragraph: none in the
      preamble, those of its matching segments otherwise. */
  function ParagraphGroups(paragraph: string): seq<Groups> {
    if StartsWith(paragraph, Preamble) then [] else Matched(Segments(paragraph))
  }

  /** One pass of the corrected loop over paragraphs. */
  function ParagraphRows(paragraph: string): (r: Result<seq<Row>, Error>)
    ensures MeetsSpec(ParagraphGroups(paragraph), r)
  {
    if StartsWith(paragraph, Preamble) then Success([]) else Rows(Segments(paragraph))
  }

  /** The groups of every matching segment of every paragraph but the
      preamble, paragraph by paragraph. */
  function AllMatched(paragraphs: seq<string>): seq<Groups> {
    FlatMap(ParagraphGroups, paragraphs)
  }

  /** Each paragraph but the preamble is split and matched in turn. */
  function RowsOfParagraphs(paragraphs: seq<string>): (r: Result<seq<Row>, Error>)
    ensures r.Success? <==> AllConvertible(AllMatched(paragraphs))
    ensures r.Success? ==> Corresponds(AllMatched(paragraphs), r.value)
    ensures r.Failure? ==> r.error == InvalidRevenue(Revenue.InvalidLiteral(""))
    decreases |paragraphs|
  {
    if |paragraphs| == 0 then Success([])
    else
      var here := ParagraphRows(paragraphs[0]);
      var rest := RowsOfParagraphs(paragraphs[1..]);
      ThenMeetsSpec(ParagraphGroups(paragraphs[0]), here, AllMatched(paragraphs[1..]), rest);
      Then(here, rest)
  }

  /** The intended `extract_data`: no container or no paragraphs gives no rows. */
  function ExtractAll(container: Option<seq<string>>): (r: Result<seq<Row>, Error>)
    ensures container.None? ==> r == Success([])
    ensures container.Some? ==> (r.Success? <==> AllConvertible(AllMatched(container.value)))
    ensures container.Some? && r.Success? ==> Corresponds(AllMatched(container.value), r.value)
  {
    match container
    case None => Success([])
    case Some(paragraphs) => RowsOfParagraphs(paragraphs)
  }

  /** The outcome a stretch of the loop promises for the groups it met. */
  predicate MeetsSpec(gs: seq<Groups>, r: Result<seq<Row>, Error>) {
    && (r.Success? <==> AllConvertible(gs))
    && (r.Success? ==> Corresponds(gs, r.value))
    && (r.Failure? ==> r.error == InvalidRevenue(Revenue.InvalidLiteral("")))
  }

  lemma ThenMeetsSpec(a: seq<Groups>, first: Result<seq<Row>, Error>, b: seq<Groups>, second: Result<seq<Row>, Error>)
    requires MeetsSpec(a, first) && MeetsSpec(b, second)
    ensures MeetsSpec(a + b, Then(first, second))
  {
    AllConvertibleAppend(a, b);
    if first.Success? && second.Success? {
      CorrespondsAppend(a, first.value, b, second.value);
    }
  }

  lemma AllConvertibleAppend(a: seq<Groups>, b: seq<Groups>)
    ensures AllConvertible(a + b) <==> AllConvertible(a) && AllConvertible(b)
  {
    if AllConvertible(a) && AllConvertible(b) {
      forall i | 0 <= i < |a + b|
        ensures Revenue.HasDigit((a + b)[i].revenue)
      {
        if i >= |a| {
          assert (a + b)[i] == b[i - |a|];
        }
      }
    }
    if AllConvertible(a + b) {
      forall i | 0 <= i < |a|
        ensures Revenue.HasDigit(a[i].revenue)
      {
        assert (a + b)[i] == a[i];
      }
      forall i | 0 <= i < |b|
        ensures Revenue.HasDigit(b[i].revenue)
      {
        assert (a + b)[|a| + i] == b[i];
      }
    }
  }

  lemma CorrespondsAppend(a: seq<Groups>, rowsA: seq<Row>, b: seq<Groups>, rowsB: seq<Row>)
    requires Corresponds(a, rowsA) && Corresponds(b, rowsB)
    ensures Corresponds(a + b, rowsA + rowsB)
  {
    PairwiseAppend(Converts, a, rowsA, b, rowsB);
  }

  // A worked instance: a container holding two company lines, one per paragraph.

  /** A company line whose name and revenue hold no '.', so that its only
      '.' is the rank's. */
  predicate PlainGroups(g: Groups) {
    WellFormed(g) && '.' !in g.name && '.' !in g.revenue
  }

  lemma LineTailHasNoDot()
    ensures forall k :: 0 <= k < |LineTail| ==> LineTail[k] != '.'
  {
  }

  /** The only '.' of a plain line is the one after the rank. */
  lemma PlainLineDots(g: Groups)
    requires PlainGroups(g)
    ensures forall j :: 0 <= j < |Line(g)| && j != |g.rank| ==> Line(g)[j] != '.'
  {
    var seg := Line(g);
    var dot := |g.rank|;
    var e := dot + 2 + |g.name|;
    LineLayout(g);
    LineTailHasNoDot();
    forall j | 0 <= j < |seg| && j != dot
      ensures seg[j] != '.'
    {
      if j < dot {
        assert seg[j] == seg[..dot][j];
      } else if j == dot + 1 {
      } else if j < e {
        assert seg[j] == seg[dot + 2..e][j - dot - 2];
        assert seg[j] in g.name;
      } else if j < e + RevenueOffset {
        assert seg[j] == seg[e..e + RevenueOffset][j - e];
      } else {
        assert seg[j] == seg[e + RevenueOffset..][j - e - RevenueOffset];
        assert seg[j] in g.revenue;
      }
    }
  }

  /** A plain line is one segment: ".000" does not occur in it. */
  lemma SegmentsOfPlainLine(g: Groups)
    requires PlainGroups(g)
    ensures Segments(Line(g)) == [Line(g)]
  {
    var seg := Line(g);
    var dot := |g.rank|;
    LineLayout(g);
    PlainLineDots(g);
    forall j: nat | j <= |seg|
      ensures !OccursAt(seg, Delimiter, j)
    {
      if j + |Delimiter| <= |seg| {
        assert seg[j..j + |Delimiter|][0] == seg[j];
        assert seg[j..j + |Delimiter|][1] == seg[j + 1];
      }
    }
    FindSome(seg, Delimiter);
    SplitWhole(seg, Delimiter);
  }

  /** A company line does not start like the preamble. */
  lemma LineIsNotPreamble(g: Groups)
    requires WellFormed(g)
    ensures !StartsWith(Line(g), Preamble)
  {
    var seg := Line(g);
    LineLayout(g);
    assert seg[0] == seg[..|g.rank|][0] == g.rank[0];
    if |Preamble| <= |seg| {
      assert seg[..|Preamble|][0] == seg[0];
    }
  }

  /** A plain line yields its own groups, and nothing else. */
  lemma MatchedPlainLine(g: Groups)
    requires PlainGroups(g)
    ensures Matched(Segments(Line(g))) == [g]
    ensures Revenue.HasDigit(g.revenue)
  {
    SegmentsOfPlainLine(g);
    CaptureLine(g);
    assert Matched([Line(g)]) == Captured(Line(g)) + Matched([]);
    assert g.revenue[0] in g.revenue;
  }

  /** The corrected loop's view of a paragraph holding one plain line: that line's groups. */
  lemma ParagraphOfPlainLine(g: Groups)
    requires PlainGroups(g)
    ensures ParagraphGroups(Line(g)) == [g]
  {
    MatchedPlainLine(g);
    LineIsNotPreamble(g);
  }

  lemma PlainConvertible(gs: seq<Groups>)
    requires forall i :: 0 <= i < |gs| ==> PlainGroups(gs[i])
    ensures AllConvertible(gs)
  {
    forall i | 0 <= i < |gs|
      ensures Revenue.HasDigit(gs[i].revenue)
    {
      MatchedPlainLine(gs[i]);
    }
  }

  /** Paragraphs holding one plain company line each are a container of the
      kind `OnlyLastParagraphExtracted` and `EveryParagraphExtracted` speak of. */
  lemma ParagraphsOfLines(paragraphs: seq<string>, gs: seq<Groups>)
    requires |paragraphs| == |gs|
    requires forall i :: 0 <= i < |gs| ==> paragraphs[i] == Line(gs[i]) && PlainGroups(gs[i])
    ensures OneLineEach(paragraphs, gs)
  {
    forall i | 0 <= i < |gs|
      ensures ParagraphGroups(paragraphs[i]) == [gs[i]]
    {
      ParagraphOfPlainLine(gs[i]);
    }
    PlainConvertible(gs);
  }

  /** Whatever the paragraphs before it, the extraction reads the last one. */
  lemma ExtractIsLastParagraph(paragraphs: seq<string>)
    requires |paragraphs| > 0
    ensures Extract(Some(paragraphs)) == Rows(Segments(paragraphs[|paragraphs| - 1]))
  {
    assert TextAfterLoop(paragraphs, None) == Some(paragraphs[|paragraphs| - 1]);
  }

  /** Paragraphs that each hold one company line, as the corrected loop reads them. */
  predicate OneLineEach(paragraphs: seq<string>, gs: seq<Groups>) {
    && |paragraphs| == |gs|
    && (forall i :: 0 <= i < |gs| ==> ParagraphGroups(paragraphs[i]) == [gs[i]])
    && AllConvertible(gs)
  }

  /** As written, the extraction keeps only the last paragraph's row. */
  lemma OnlyLastParagraphExtracted(paragraphs: seq<string>, gs: seq<Groups>)
    requires |gs| > 0 && OneLineEach(paragraphs, gs)
    ensures Extract(Some(paragraphs)).Success?
    ensures Corresponds([gs[|gs| - 1]], Extract(Some(paragraphs)).value)
  {
    var last := paragraphs[|gs| - 1];
    var g := gs[|gs| - 1];
    assert ParagraphGroups(last) == [g];
    assert Revenue.HasDigit(g.revenue);
    ExtractIsLastParagraph(paragraphs);
    assert [g][0] == g;
  }

  /** The corrected loop keeps every paragraph's row, in order. */
  lemma EveryParagraphExtracted(paragraphs: seq<string>, gs: seq<Groups>)
    requires OneLineEach(paragraphs, gs)
    ensures ExtractAll(Some(paragraphs)).Success?
    ensures Corresponds(gs, ExtractAll(Some(paragraphs)).value)
  {
    FlatMapSingles(ParagraphGroups, paragraphs, gs);
  }

  /** From two company lines on, the extraction as written loses rows: one
      row comes back where the corrected loop returns one per paragraph. */
  lemma RowsLost(paragraphs: seq<string>, gs: seq<Groups>)
    requires |gs| >= 2 && OneLineEach(paragraphs, gs)
    ensures Extract(Some(paragraphs)).Success? && ExtractAll(Some(paragraphs)).Success?
    ensures |Extract(Some(paragraphs)).value| == 1 < |gs| == |ExtractAll(Some(paragraphs)).value|
  {
    OnlyLastParagraphExtracted(paragraphs, gs);
    EveryParagraphExtracted(paragraphs, gs);
    CorrespondsAt([gs[|gs| - 1]], Extract(Some(paragraphs)).value);
    CorrespondsAt(gs, ExtractAll(Some(paragraphs)).value);
  }

  /** Two paragraphs, "1. Pertamina dengan pendapatan Rp1234" and
      "2. PLN dengan pendapatan Rp567": the extraction as written returns one
      row where there are two companies. */
  lemma TwoCompaniesOneRow()
    ensures var paragraphs := [Line(Groups("1", "Pertamina", "1234")), Line(Groups("2", "PLN", "567"))];
      && Extract(Some(paragraphs)).Success? && ExtractAll(Some(paragraphs)).Success?
      && |Extract(Some(paragraphs)).value| == 1 < 2 == |ExtractAll(Some(paragraphs)).value|
  {
    var gs := [Groups("1", "Pertamina", "1234"), Groups("2", "PLN", "567")];
    var paragraphs := [Line(gs[0]), Line(gs[1])];
    ParagraphsOfLines(paragraphs, gs);
    RowsLost(paragraphs, gs);
  }
}

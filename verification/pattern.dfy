/** A recogniser for the company-line pattern
      (\d+)\.\s(.+)\sdengan pendapatan\sRp([\d\.]+)
    as Python's `re.match` applies it: anchored at the start of the segment,
    not at its end, with greedy quantifiers and backtracking. `\s` is Python's
    whitespace class for `str` patterns, `.` is any character but a newline,
    and `\d` is restricted to the ASCII digits. */
module Pattern {
  import opened Results
  import opened Decimal
  import Revenue

  /** Characters for which `str.isspace()` holds: what `\s` matches. */
  function IsSpace(c: char): (b: bool)
    ensures c == ' ' || c == '\t' || c == '\n' || c == '\r' || c == '\U{b}' || c == '\U{c}' ==> b
    ensures b ==> !IsDigit(c) && c != '.' && c != 'R'
  {
    || c == ' '
    || '\t' <= c <= '\r'
    || '\U{1c}' <= c <= '\U{1f}'
    || c == '\U{85}' || c == '\U{a0}' || c == '\U{1680}'
    || '\U{2000}' <= c <= '\U{200a}'
    || c == '\U{2028}' || c == '\U{2029}' || c == '\U{202f}' || c == '\U{205f}' || c == '\U{3000}'
  }

  /** The three repeated character classes of the pattern. */
  datatype Class = Digit | AnyButNewline | DigitOrDot {
    predicate Has(c: char) {
      match this
      case Digit => IsDigit(c)
      case AnyButNewline => c != '\n'
      case DigitOrDot => IsDigit(c) || c == Revenue.Separator
    }
  }

  predicate AllIn(s: string, cls: Class) {
    forall i :: 0 <= i < |s| ==> cls.Has(s[i])
  }

  /** End of the longest run of `cls` characters in `s` that starts at `i`. */
  function RunEnd(s: string, i: nat, cls: Class): (r: nat)
    requires i <= |s|
    ensures i <= r <= |s|
    ensures AllIn(s[i..r], cls)
    ensures r < |s| ==> !cls.Has(s[r])
    decreases |s| - i
  {
    if i == |s| || !cls.Has(s[i]) then i else RunEnd(s, i + 1, cls)
  }

  const Marker := "dengan pendapatan"
  const Currency := "Rp"
  /** From the end of the name to the first revenue character: `\s`, the marker, `\s`, "Rp". */
  const RevenueOffset := 1 + |Marker| + 1 + |Currency|

  /** `t` is what `\sdengan pendapatan\sRp` matches. */
  predicate IsTail(t: string) {
    && |t| == RevenueOffset
    && IsSpace(t[0])
    && t[1..1 + |Marker|] == Marker
    && IsSpace(t[1 + |Marker|])
    && t[2 + |Marker|..] == Currency
  }

  /** `\sdengan pendapatan\sRp[\d\.]` matches at `e`: a place where the name may end. */
  predicate TailAt(seg: string, e: nat) {
    && e + RevenueOffset < |seg|
    && IsTail(seg[e..e + RevenueOffset])
    && DigitOrDot.Has(seg[e + RevenueOffset])
  }

  /** Group boundaries of a match: the rank is `seg[..dot]`, the name
      `seg[dot + 2..nameEnd]`, the revenue `seg[nameEnd + RevenueOffset..revenueEnd]`. */
  datatype Parse = Parse(dot: nat, nameEnd: nat, revenueEnd: nat)

  /** `p` is one way the pattern matches a prefix of `seg`. */
  predicate Matches(seg: string, p: Parse) {
    && 0 < p.dot
    && p.dot + 2 < p.nameEnd
    && p.nameEnd + RevenueOffset < p.revenueEnd <= |seg|
    && AllIn(seg[..p.dot], Digit)
    && seg[p.dot] == '.'
    && IsSpace(seg[p.dot + 1])
    && AllIn(seg[p.dot + 2..p.nameEnd], AnyButNewline)
    && TailAt(seg, p.nameEnd)
    && AllIn(seg[p.nameEnd + RevenueOffset..p.revenueEnd], DigitOrDot)
  }

  /** The backtracking matcher tries longer names first (`.+` is greedy) and,
      for a fixed name, the longest revenue run (`[\d\.]+` is greedy). */
  predicate TriedFirst(p: Parse, q: Parse) {
    q.nameEnd < p.nameEnd || (q.nameEnd == p.nameEnd && q.revenueEnd <= p.revenueEnd)
  }

  /** `p` is the match `re.match` reports: every other match comes after it. */
  ghost predicate FirstMatch(seg: string, p: Parse) {
    Matches(seg, p) && forall q :: Matches(seg, q) ==> TriedFirst(p, q)
  }

  /** The last place in `(lo, hi]` where the name may end. */
  function LastTail(seg: string, lo: nat, hi: nat): (r: Option<nat>)
    ensures r.Some? ==> lo < r.value <= hi && TailAt(seg, r.value)
    ensures forall e: nat :: lo < e <= hi && (r.None? || r.value < e) ==> !TailAt(seg, e)
    decreases hi
  {
    if hi <= lo then None
    else if TailAt(seg, hi) then Some(hi)
    else LastTail(seg, lo, hi - 1)
  }

  /** `re.match(pattern, seg)`: no match at all, or the match Python's
      backtracking finds first, which every other match comes after. */
  function Match(seg: string): (r: Option<Parse>)
    ensures r.None? <==> forall p :: !Matches(seg, p)
    ensures r.Some? ==> Matches(seg, r.value)
    ensures r.Some? ==> forall p :: Matches(seg, p) ==> TriedFirst(r.value, p)
  {
    var dot := RunEnd(seg, 0, Digit);
    if dot == 0 || dot + 1 >= |seg| || seg[dot] != '.' || !IsSpace(seg[dot + 1]) then
      NoMatchWithoutRank(seg, dot);
      None
    else
      var nameStart := dot + 2;
      var lineEnd := RunEnd(seg, nameStart, AnyButNewline);
      match LastTail(seg, nameStart, lineEnd)
      case None =>
        NoMatchWithoutTail(seg, dot, lineEnd);
        None
      case Some(e) =>
        var p := Parse(dot, e, RunEnd(seg, e + RevenueOffset, DigitOrDot));
        MatchIsFirst(seg, p, lineEnd);
        Some(p)
  }

  lemma AllInShorter(s: string, i: nat, j: nat, k: nat, cls: Class)
    requires i <= j <= k <= |s| && AllIn(s[i..k], cls)
    ensures AllIn(s[i..j], cls)
  {
    assert forall n :: 0 <= n < j - i ==> s[i..j][n] == s[i..k][n];
  }

  /** No run of `cls` characters starting at `i` goes past `RunEnd`. */
  lemma RunEndIsLongest(s: string, i: nat, j: nat, cls: Class)
    requires i <= |s| && j <= |s|
    ensures i <= j && AllIn(s[i..j], cls) ==> j <= RunEnd(s, i, cls)
  {
    var r := RunEnd(s, i, cls);
    assert i <= j && r < j ==> s[i..j][r - i] == s[r];
  }

  /** Every match puts the rank's dot at the end of the leading digit run,
      and a space after it. */
  lemma DotOfMatch(seg: string, p: Parse)
    ensures Matches(seg, p) ==>
      && p.dot == RunEnd(seg, 0, Digit)
      && 0 < p.dot && p.dot + 1 < |seg| && seg[p.dot] == '.' && IsSpace(seg[p.dot + 1])
  {
    if p.dot < |seg| && AllIn(seg[..p.dot], Digit) && seg[p.dot] == '.' {
      DigitRunEnd(seg, p.dot);
    }
  }

  lemma DigitRunEnd(seg: string, dot: nat)
    requires dot < |seg| && AllIn(seg[..dot], Digit) && seg[dot] == '.'
    ensures dot == RunEnd(seg, 0, Digit)
  {
    assert seg[..dot] == seg[0..dot];
    RunEndIsLongest(seg, 0, dot, Digit);
  }

  /** A match's name lies within the first line after the rank. */
  lemma NameEndOfMatch(seg: string, p: Parse)
    ensures Matches(seg, p) ==> p.dot + 2 <= |seg| && p.nameEnd <= RunEnd(seg, p.dot + 2, AnyButNewline)
  {
    if p.dot + 2 <= p.nameEnd <= |seg| {
      RunEndIsLongest(seg, p.dot + 2, p.nameEnd, AnyButNewline);
    }
  }

  lemma NoMatchWithoutRank(seg: string, dot: nat)
    requires dot == RunEnd(seg, 0, Digit)
    requires dot == 0 || dot + 1 >= |seg| || seg[dot] != '.' || !IsSpace(seg[dot + 1])
    ensures forall p :: !Matches(seg, p)
  {
    forall p
      ensures !Matches(seg, p)
    {
      DotOfMatch(seg, p);
    }
  }

  lemma NoMatchWithoutTail(seg: string, dot: nat, lineEnd: nat)
    requires dot == RunEnd(seg, 0, Digit) && dot + 2 <= |seg|
    requires lineEnd == RunEnd(seg, dot + 2, AnyButNewline)
    requires LastTail(seg, dot + 2, lineEnd).None?
    ensures forall p :: !Matches(seg, p)
  {
    forall p
      ensures !Matches(seg, p)
    {
      DotOfMatch(seg, p);
      NameEndOfMatch(seg, p);
    }
  }

  lemma MatchIsFirst(seg: string, p: Parse, lineEnd: nat)
    requires p.dot == RunEnd(seg, 0, Digit)
    requires 0 < p.dot && p.dot + 1 < |seg| && seg[p.dot] == '.' && IsSpace(seg[p.dot + 1])
    requires lineEnd == RunEnd(seg, p.dot + 2, AnyButNewline)
    requires LastTail(seg, p.dot + 2, lineEnd) == Some(p.nameEnd)
    requires p.nameEnd + RevenueOffset < |seg|
    requires p.revenueEnd == RunEnd(seg, p.nameEnd + RevenueOffset, DigitOrDot)
    ensures Matches(seg, p)
    ensures forall q :: Matches(seg, q) ==> TriedFirst(p, q)
  {
    AllInShorter(seg, p.dot + 2, p.nameEnd, lineEnd, AnyButNewline);
    assert seg[..p.dot] == seg[0..p.dot];
    forall q
      ensures Matches(seg, q) ==> TriedFirst(p, q)
    {
      ComesAfter(seg, p, lineEnd, q);
    }
  }

  /** Any match ends its name no later than the last tail, and, ending it
      there, its revenue no later than the longest run. */
  lemma ComesAfter(seg: string, p: Parse, lineEnd: nat, q: Parse)
    requires p.dot == RunEnd(seg, 0, Digit) && p.dot + 2 <= |seg|
    requires lineEnd == RunEnd(seg, p.dot + 2, AnyButNewline)
    requires LastTail(seg, p.dot + 2, lineEnd) == Some(p.nameEnd)
    requires p.nameEnd + RevenueOffset < |seg|
    requires p.revenueEnd == RunEnd(seg, p.nameEnd + RevenueOffset, DigitOrDot)
    ensures Matches(seg, q) ==> TriedFirst(p, q)
  {
    DotOfMatch(seg, q);
    NameEndOfMatch(seg, q);
    if Matches(seg, q) && q.nameEnd == p.nameEnd {
      RunEndIsLongest(seg, p.nameEnd + RevenueOffset, q.revenueEnd, DigitOrDot);
    }
  }

  /** The three groups a match captures, as `match.group(1)`, `(2)` and `(3)`. */
  datatype Groups = Groups(rank: string, name: string, revenue: string)

  /** What the three groups of any match look like. */
  predicate WellFormed(g: Groups) {
    && |g.rank| > 0 && AllDigits(g.rank)
    && |g.name| > 0 && '\n' !in g.name
    && |g.revenue| > 0 && Revenue.IsRevenueText(g.revenue)
  }

  function GroupsOf(seg: string, p: Parse): (g: Groups)
    requires Matches(seg, p)
    ensures WellFormed(g)
  {
    Groups(seg[..p.dot], seg[p.dot + 2..p.nameEnd], seg[p.nameEnd + RevenueOffset..p.revenueEnd])
  }

  /** The groups of `re.match(pattern, seg)`, if it matches. */
  function Capture(seg: string): (r: Option<Groups>)
    ensures r.None? <==> forall p :: !Matches(seg, p)
    ensures r.Some? ==> WellFormed(r.value)
    ensures r.Some? ==> exists p :: FirstMatch(seg, p) && r.value == GroupsOf(seg, p)
  {
    match Match(seg)
    case None => None
    case Some(p) =>
      assert FirstMatch(seg, p);
      Some(GroupsOf(seg, p))
  }

  /** There is only one first match, so `Capture` names one set of groups. */
  lemma FirstMatchUnique(seg: string, p: Parse, q: Parse)
    requires FirstMatch(seg, p) && FirstMatch(seg, q)
    ensures p == q
  {
    assert TriedFirst(p, q) && TriedFirst(q, p);
    DotOfMatch(seg, p);
    DotOfMatch(seg, q);
  }

  /** A segment that starts with whitespace has no rank, so nothing is captured. */
  lemma LeadingSpaceRejected(seg: string)
    requires |seg| > 0 && IsSpace(seg[0])
    ensures Capture(seg).None?
  {
    assert RunEnd(seg, 0, Digit) == 0;
  }

  /** A tail is its two whitespace characters around the marker, then "Rp". */
  lemma TailRebuild(t: string)
    requires IsTail(t)
    ensures t == [t[0]] + Marker + [t[1 + |Marker|]] + Currency
  {
    assert t == [t[0]] + t[1..1 + |Marker|] + [t[1 + |Marker|]] + t[2 + |Marker|..];
  }

  /** The groups, put back together with the two whitespace characters
      around the marker, the one after the rank's dot, and the literal parts
      of the pattern, give back the matched prefix of the segment. The name
      is not trimmed. */
  lemma GroupsRebuildMatch(seg: string, p: Parse)
    requires Matches(seg, p)
    ensures var g := GroupsOf(seg, p);
      seg[..p.revenueEnd]
      == g.rank + "." + [seg[p.dot + 1]] + g.name + [seg[p.nameEnd]] + Marker
         + [seg[p.nameEnd + 1 + |Marker|]] + Currency + g.revenue
  {
    Reassemble(seg, p.dot, p.nameEnd, p.revenueEnd);
  }

  lemma Reassemble(seg: string, dot: nat, e: nat, end: nat)
    requires dot + 2 <= e && e + RevenueOffset <= end <= |seg|
    requires seg[dot] == '.' && IsTail(seg[e..e + RevenueOffset])
    ensures seg[..end]
      == seg[..dot] + "." + [seg[dot + 1]] + seg[dot + 2..e] + [seg[e]] + Marker
         + [seg[e + 1 + |Marker|]] + Currency + seg[e + RevenueOffset..end]
  {
    var rev := e + RevenueOffset;
    var t := seg[e..rev];
    TailRebuild(t);
    assert t[0] == seg[e] && t[1 + |Marker|] == seg[e + 1 + |Marker|];
    assert seg[..dot + 2] == seg[..dot] + "." + [seg[dot + 1]];
    assert seg[..e] == seg[..dot + 2] + seg[dot + 2..e];
    assert seg[..rev] == seg[..e] + t;
    assert seg[..end] == seg[..rev] + seg[rev..end];
  }

  /** The text between a line's name and its revenue: single spaces around the marker. */
  const LineTail := " " + Marker + " " + Currency

  lemma LineTailIsTail()
    ensures IsTail(LineTail)
    ensures LineTail[2 + |Marker|] == 'R' && LineTail[RevenueOffset - 1] == 'p'
  {
    assert LineTail[1..1 + |Marker|] == Marker;
    assert LineTail[2 + |Marker|..] == Currency;
  }

  /** A company line spelled with single spaces: "<rank>. <name> dengan pendapatan Rp<revenue>". */
  function Line(g: Groups): string {
    g.rank + ". " + g.name + LineTail + g.revenue
  }

  /** Where each part of a line sits. */
  lemma LineLayout(g: Groups)
    ensures var seg := Line(g);
      var dot := |g.rank|;
      var e := dot + 2 + |g.name|;
      && |seg| == e + RevenueOffset + |g.revenue|
      && seg[..dot] == g.rank
      && seg[dot] == '.' && seg[dot + 1] == ' '
      && seg[dot + 2..e] == g.name
      && seg[e..e + RevenueOffset] == LineTail
      && seg[e + RevenueOffset..] == g.revenue
  {
    var head := g.rank + ". " + g.name;
    var seg := Line(g);
    assert seg == head + LineTail + g.revenue;
    assert seg[..|head|] == head;
    assert head[..|g.rank|] == g.rank;
    assert head[|g.rank| + 2..] == g.name;
  }

  /** The parse a line is built with. */
  function LineParse(g: Groups): Parse {
    var e := |g.rank| + 2 + |g.name|;
    Parse(|g.rank|, e, e + RevenueOffset + |g.revenue|)
  }

  lemma LineMatches(g: Groups)
    requires WellFormed(g)
    ensures Matches(Line(g), LineParse(g))
    ensures GroupsOf(Line(g), LineParse(g)) == g
  {
    LineLayout(g);
    LineTailIsTail();
    var seg := Line(g);
    var e := LineParse(g).nameEnd;
    assert seg[e + RevenueOffset] == g.revenue[0];
  }

  /** Wherever the name may end, "R" stands nineteen characters on. */
  lemma TailAtHasR(seg: string, e: nat)
    requires e + RevenueOffset < |seg|
    ensures TailAt(seg, e) ==> seg[e + 2 + |Marker|] == 'R'
  {
    var t := seg[e..e + RevenueOffset];
    assert t[2 + |Marker|..][0] == t[2 + |Marker|] == seg[e + 2 + |Marker|];
  }

  /** After the name, no other place can end it: each would need an 'R'
      nineteen characters on, where the line has a 'p' or a revenue character. */
  lemma NoTailAfterName(g: Groups)
    requires Revenue.IsRevenueText(g.revenue)
    ensures forall e': nat :: LineParse(g).nameEnd < e' ==> !TailAt(Line(g), e')
  {
    var seg := Line(g);
    var e := LineParse(g).nameEnd;
    LineLayout(g);
    LineTailIsTail();
    forall e': nat | e < e'
      ensures !TailAt(seg, e')
    {
      if e' + RevenueOffset < |seg| {
        TailAtHasR(seg, e');
        var k := e' + 2 + |Marker|;
        if k == e + RevenueOffset - 1 {
          assert seg[k] == LineTail[RevenueOffset - 1];
        } else {
          assert seg[k] == g.revenue[k - e - RevenueOffset];
        }
      }
    }
  }

  /** The groups a well-formed company line is built from are captured back
      from it, whatever the name holds (even a copy of the marker: the greedy
      name then runs on to the last one). */
  lemma CaptureLine(g: Groups)
    requires WellFormed(g)
    ensures Capture(Line(g)) == Some(g)
  {
    var seg := Line(g);
    var p := LineParse(g);
    LineMatches(g);
    NoTailAfterName(g);
    var r := Match(seg).value;
    DotOfMatch(seg, r);
    DotOfMatch(seg, p);
    assert r == p;
  }
}

/** The result of the calculation (EightCharactersDto.java): the four
    pillars, each a stem and a branch, the element counts, and the three
    renderings of them. Each rendering can be read back into what it
    renders (`ParseNames`, `ParseCodes`, `ParseCounts`). */
module EightCharactersDto {
  import opened Outcome
  import HeavenlyStem
  import Earthly
  import FiveElements
  import SolarCalendar
  import DateUtils
  import Text

  /** `HeavenlyStemEarthlyDto`: one pillar, a stem paired with a branch. */
  datatype Pillar = Pillar(heavenlyStem: HeavenlyStem.Stem, earthly: Earthly.Branch)

  /** `EightCharactersDto`, as the calculation fills it: the birth date, the
      lunar calendar (the fields `solarToLunar` set on it), the year, month,
      day and hour pillars, and the count of each element among them. */
  datatype EightCharacters = EightCharacters(
    date: SolarCalendar.SolarDate,
    lunarDate: DateUtils.LunarDate,
    yearHeavenlyStemEarthly: Pillar,
    monthHeavenlyStemEarthly: Pillar,
    dayHeavenlyStemEarthly: Pillar,
    hourHeavenlyStemEarthly: Pillar,
    fiveElementsCountMap: map<FiveElements.Element, int>)
  {
    /** The pillars in year, month, day, hour order. */
    function Pillars(): (ps: seq<Pillar>)
      ensures |ps| == 4
    {
      [yearHeavenlyStemEarthly, monthHeavenlyStemEarthly, dayHeavenlyStemEarthly, hourHeavenlyStemEarthly]
    }

    /** `heavenlyStemEarthlyNameToString`: the stem and branch names of each
        pillar, year first, separated by single spaces; eleven characters
        from which the four pillars can be read back. */
    function NameToString(): (r: string)
      ensures |r| == 11 && r[2] == ' ' && r[5] == ' ' && r[8] == ' '
      ensures ParseNames(r) == Some(Pillars())
    {
      var r := PillarName(yearHeavenlyStemEarthly) + " " + PillarName(monthHeavenlyStemEarthly) + " "
        + PillarName(dayHeavenlyStemEarthly) + " " + PillarName(hourHeavenlyStemEarthly);
      PillarNameRoundTrip(yearHeavenlyStemEarthly);
      PillarNameRoundTrip(monthHeavenlyStemEarthly);
      PillarNameRoundTrip(dayHeavenlyStemEarthly);
      PillarNameRoundTrip(hourHeavenlyStemEarthly);
      assert r[0..2] == PillarName(yearHeavenlyStemEarthly) && r[3..5] == PillarName(monthHeavenlyStemEarthly);
      assert r[6..8] == PillarName(dayHeavenlyStemEarthly) && r[9..11] == PillarName(hourHeavenlyStemEarthly);
      r
    }

    /** `heavenlyStemEarthlyCodeToString`: `stemCode|branchCode` for each
        pillar, year first, separated by single spaces and with no space at
        the end; the four pillars can be read back from it. */
    function CodeToString(): (r: string)
      ensures 15 <= |r| <= 19 && Text.IsDigit(r[|r| - 1])
      ensures ParseCodes(r) == Some(Pillars())
    {
      CodesRoundTrip(yearHeavenlyStemEarthly, monthHeavenlyStemEarthly, dayHeavenlyStemEarthly, hourHeavenlyStemEarthly);
      JoinCodes(yearHeavenlyStemEarthly, monthHeavenlyStemEarthly, dayHeavenlyStemEarthly, hourHeavenlyStemEarthly)
    }

    /** `fiveElementsCountToString`: for each entry of the count map, in the
        TreeMap's order (the elements' declaration order), the element's
        name, its count and a space. */
    method CountsToString() returns (s: string)
      ensures s == CountsText(fiveElementsCountMap, FiveElements.AllElements)
    {
      var counts := fiveElementsCountMap;
      var order := FiveElements.AllElements;
      s := "";
      for i := 0 to |order|
        invariant s == CountsText(counts, order[..i])
      {
        var e := order[i];
        CountsTextStep(counts, order, i);
        if e in counts {
          s := s + CountEntry(e, counts[e]);
        }
      }
      assert order[..|order|] == order;
    }
  }

  // The name rendering.

  /** The two names of a pillar. */
  function PillarName(p: Pillar): (s: string)
    ensures |s| == 2
  {
    p.heavenlyStem.Name() + p.earthly.Name()
  }

  /** The stem whose name is the character c. */
  function StemOfName(c: char): Option<HeavenlyStem.Stem> {
    if c == '甲' then Some(HeavenlyStem.Jia) else if c == '乙' then Some(HeavenlyStem.Yi)
    else if c == '丙' then Some(HeavenlyStem.Bing) else if c == '丁' then Some(HeavenlyStem.Ding)
    else if c == '戊' then Some(HeavenlyStem.Wu) else if c == '己' then Some(HeavenlyStem.Ji)
    else if c == '庚' then Some(HeavenlyStem.Geng) else if c == '辛' then Some(HeavenlyStem.Xin)
    else if c == '壬' then Some(HeavenlyStem.Ren) else if c == '癸' then Some(HeavenlyStem.Gui)
    else None
  }

  /** The branch whose name is the character c. */
  function BranchOfName(c: char): Option<Earthly.Branch> {
    if c == '子' then Some(Earthly.Zi) else if c == '丑' then Some(Earthly.Chou)
    else if c == '寅' then Some(Earthly.Yin) else if c == '卯' then Some(Earthly.Mou)
    else if c == '辰' then Some(Earthly.Chen) else if c == '巳' then Some(Earthly.Si)
    else if c == '午' then Some(Earthly.Wu) else if c == '未' then Some(Earthly.Wei)
    else if c == '申' then Some(Earthly.Shen) else if c == '酉' then Some(Earthly.You)
    else if c == '戌' then Some(Earthly.Xu) else if c == '亥' then Some(Earthly.Hai)
    else None
  }

  /** The pillar a stem name and a branch name stand for. */
  function PillarOfNames(s: string): Option<Pillar> {
    if |s| != 2 || StemOfName(s[0]).None? || BranchOfName(s[1]).None? then None
    else Some(Pillar(StemOfName(s[0]).value, BranchOfName(s[1]).value))
  }

  /** The four pillars a name rendering stands for. */
  function ParseNames(r: string): Option<seq<Pillar>> {
    if |r| != 11 then None
    else
      var ps := [PillarOfNames(r[0..2]), PillarOfNames(r[3..5]), PillarOfNames(r[6..8]), PillarOfNames(r[9..11])];
      if ps[0].Some? && ps[1].Some? && ps[2].Some? && ps[3].Some? then
        Some([ps[0].value, ps[1].value, ps[2].value, ps[3].value])
      else None
  }

  /** No two stems and no two branches share a name. */
  lemma PillarNameRoundTrip(p: Pillar)
    ensures PillarOfNames(PillarName(p)) == Some(p)
  {
    assert StemOfName(p.heavenlyStem.Name()[0]) == Some(p.heavenlyStem) by {
      match p.heavenlyStem
      case Jia => case Yi => case Bing => case Ding => case Wu =>
      case Ji => case Geng => case Xin => case Ren => case Gui =>
    }
    assert BranchOfName(p.earthly.Name()[0]) == Some(p.earthly) by {
      match p.earthly
      case Zi => case Chou => case Yin => case Mou => case Chen => case Si =>
      case Wu => case Wei => case Shen => case You => case Xu => case Hai =>
    }
  }

  // The code rendering.

  /** `stemCode|branchCode`: Java renders each code in decimal. */
  function PillarCode(p: Pillar): (s: string)
    ensures 3 <= |s| <= 4 && Text.IsDigit(s[|s| - 1]) && ' ' !in s
  {
    var a, b := Text.Decimal(p.heavenlyStem.Code()), Text.Decimal(p.earthly.Code());
    Text.DigitsExclude(a, ' ');
    Text.DigitsExclude(b, ' ');
    a + "|" + b
  }

  /** The pillar a `stemCode|branchCode` piece stands for: stem code c is
      the stem at position (c + 6) mod 10, branch code c the branch at
      position (c + 8) mod 12. */
  function PillarOfCodes(s: string): Option<Pillar> {
    var parts := Text.Split(s, '|');
    if |parts| != 2 || !Text.AllDigits(parts[0]) || !Text.AllDigits(parts[1]) then None
    else
      var stemCode, branchCode := Text.ParseDecimal(parts[0]), Text.ParseDecimal(parts[1]);
      if stemCode <= 9 && 1 <= branchCode <= 12 then
        Some(Pillar(HeavenlyStem.AllStems[(stemCode + 6) % 10], Earthly.AllBranches[(branchCode + 8) % 12]))
      else None
  }

  /** The four pillars a code rendering stands for. */
  function ParseCodes(r: string): Option<seq<Pillar>> {
    var parts := Text.Split(r, ' ');
    if |parts| != 4 then None
    else
      var ps := [PillarOfCodes(parts[0]), PillarOfCodes(parts[1]), PillarOfCodes(parts[2]), PillarOfCodes(parts[3])];
      if ps[0].Some? && ps[1].Some? && ps[2].Some? && ps[3].Some? then
        Some([ps[0].value, ps[1].value, ps[2].value, ps[3].value])
      else None
  }

  /** Four pillars' codes, separated by single spaces. */
  function JoinCodes(a: Pillar, b: Pillar, c: Pillar, d: Pillar): (r: string)
    ensures 15 <= |r| <= 19 && Text.IsDigit(r[|r| - 1])
  {
    PillarCode(a) + " " + PillarCode(b) + " " + PillarCode(c) + " " + PillarCode(d)
  }

  /** Four pillars' codes, joined by spaces, read back into the pillars. */
  lemma CodesRoundTrip(a: Pillar, b: Pillar, c: Pillar, d: Pillar)
    ensures ParseCodes(JoinCodes(a, b, c, d)) == Some([a, b, c, d])
  {
    var p, q, s, t := PillarCode(a), PillarCode(b), PillarCode(c), PillarCode(d);
    assert JoinCodes(a, b, c, d) == p + [' '] + q + [' '] + s + [' '] + t;
    Text.SplitJoin4(p, q, s, t, ' ');
    PillarCodeRoundTrip(a);
    PillarCodeRoundTrip(b);
    PillarCodeRoundTrip(c);
    PillarCodeRoundTrip(d);
  }

  /** A pillar's codes read back into the pillar. */
  lemma PillarCodeRoundTrip(p: Pillar)
    ensures PillarOfCodes(PillarCode(p)) == Some(p)
  {
    var a, b := Text.Decimal(p.heavenlyStem.Code()), Text.Decimal(p.earthly.Code());
    Text.DigitsExclude(a, '|');
    Text.DigitsExclude(b, '|');
    Text.SplitAround(a, b, '|');
    Text.SplitNone(a, '|');
    Text.SplitNone(b, '|');
    assert a + "|" + b == a + ['|'] + b;
    Text.ParseDecimalOfDecimal(p.heavenlyStem.Code());
    Text.ParseDecimalOfDecimal(p.earthly.Code());
    HeavenlyStem.StemCodesBijective();
    Earthly.BranchCodesBijective();
  }

  // The count rendering.

  /** The text of one count entry: the element's name, the count and a space. */
  function CountEntry(e: FiveElements.Element, count: int): string {
    e.Name() + Text.IntString(count) + " "
  }

  /** The entries of the elements `es` that the map holds, in the order of `es`. */
  function CountsText(counts: map<FiveElements.Element, int>, es: seq<FiveElements.Element>): string {
    if |es| == 0 then ""
    else
      var e := es[|es| - 1];
      CountsText(counts, es[..|es| - 1]) + (if e in counts then CountEntry(e, counts[e]) else "")
  }

  /** Extending the prefix of the order by one element appends that element's
      entry, if the map holds it. */
  lemma CountsTextStep(counts: map<FiveElements.Element, int>, es: seq<FiveElements.Element>, i: nat)
    requires i < |es|
    ensures CountsText(counts, es[..i + 1])
      == CountsText(counts, es[..i]) + (if es[i] in counts then CountEntry(es[i], counts[es[i]]) else "")
  {
    assert es[..i + 1][..i] == es[..i];
  }

  /** The entries without their spaces. */
  function CountPieces(counts: map<FiveElements.Element, int>, es: seq<FiveElements.Element>): seq<string> {
    if |es| == 0 then []
    else
      var e := es[|es| - 1];
      CountPieces(counts, es[..|es| - 1]) + (if e in counts then [e.Name() + Text.IntString(counts[e])] else [])
  }

  /** The element whose name is the character c. */
  function ElementOfName(c: char): Option<FiveElements.Element> {
    if c == '金' then Some(FiveElements.Jin) else if c == '木' then Some(FiveElements.Mu)
    else if c == '水' then Some(FiveElements.Shui) else if c == '火' then Some(FiveElements.Huo)
    else if c == '土' then Some(FiveElements.Tu)
    else None
  }

  /** The counts a list of `nameCount` pieces stands for, a later piece for
      the same element replacing an earlier one. */
  function PiecesToMap(ps: seq<string>): map<FiveElements.Element, int> {
    if |ps| == 0 then map[]
    else
      var p := ps[|ps| - 1];
      var m := PiecesToMap(ps[..|ps| - 1]);
      if |p| >= 1 && ElementOfName(p[0]).Some? && Text.AllDigits(p[1..]) then
        m[ElementOfName(p[0]).value := Text.ParseDecimal(p[1..])]
      else m
  }

  /** The counts a count rendering stands for: the pieces between the
      spaces, without the empty piece after the last space. */
  function ParseCounts(s: string): map<FiveElements.Element, int> {
    var parts := Text.Split(s, ' ');
    PiecesToMap(parts[..|parts| - 1])
  }

  /** Splitting the rendering of `es`, followed by any text b, at the spaces
      gives the pieces of `es` and then those of b. */
  lemma {:induction false} SplitCountsText(counts: map<FiveElements.Element, int>, es: seq<FiveElements.Element>, b: string)
    ensures Text.Split(CountsText(counts, es) + b, ' ') == CountPieces(counts, es) + Text.Split(b, ' ')
  {
    if |es| > 0 {
      var e, front := es[|es| - 1], es[..|es| - 1];
      if e in counts {
        var piece := e.Name() + Text.IntString(counts[e]);
        PieceHasNoSpace(e, counts[e]);
        var tail := piece + [' '] + b;
        assert CountsText(counts, es) == CountsText(counts, front) + CountEntry(e, counts[e]);
        assert CountsText(counts, es) + b == CountsText(counts, front) + tail;
        assert CountPieces(counts, es) == CountPieces(counts, front) + [piece];
        SplitCountsText(counts, front, tail);
        Text.SplitAround(piece, b, ' ');
        Text.SplitNone(piece, ' ');
        assert Text.Split(tail, ' ') == [piece] + Text.Split(b, ' ');
      } else {
        assert CountsText(counts, es) == CountsText(counts, front);
        assert CountPieces(counts, es) == CountPieces(counts, front);
        SplitCountsText(counts, front, b);
      }
    } else {
      assert CountsText(counts, es) + b == b;
    }
  }

  /** An entry without its space holds no space. */
  lemma PieceHasNoSpace(e: FiveElements.Element, n: int)
    ensures ' ' !in e.Name() + Text.IntString(n)
  {
    Text.DigitsExclude(Text.Decimal(if n >= 0 then n else -n), ' ');
    ElementNameNotSpace(e);
  }

  lemma ElementNameNotSpace(e: FiveElements.Element)
    ensures e.Name()[0] != ' ' && ElementOfName(e.Name()[0]) == Some(e)
  {
    match e
    case Jin => case Mu => case Shui => case Huo => case Tu =>
  }

  /** The pieces of `es` stand for the counts of the elements of `es`. */
  lemma {:induction false} PiecesOfCounts(counts: map<FiveElements.Element, int>, es: seq<FiveElements.Element>)
    requires forall e :: e in counts ==> counts[e] >= 0
    ensures PiecesToMap(CountPieces(counts, es)) == map e | e in es && e in counts :: counts[e]
  {
    if |es| > 0 {
      var e, front := es[|es| - 1], es[..|es| - 1];
      PiecesOfCounts(counts, front);
      var before := map x | x in front && x in counts :: counts[x];
      if e in counts {
        var piece := e.Name() + Text.IntString(counts[e]);
        var ps := CountPieces(counts, front) + [piece];
        assert ps[..|ps| - 1] == CountPieces(counts, front);
        ElementNameNotSpace(e);
        assert piece[1..] == Text.Decimal(counts[e]);
        Text.ParseDecimalOfDecimal(counts[e]);
        assert PiecesToMap(ps) == before[e := counts[e]];
      } else {
        assert CountPieces(counts, es) == CountPieces(counts, front);
      }
      assert (map x | x in es && x in counts :: counts[x]) == if e in counts then before[e := counts[e]] else before;
    }
  }

  /** The count rendering reads back into the count map, and an empty map
      renders as the empty string. */
  lemma CountsRoundTrip(counts: map<FiveElements.Element, int>)
    requires forall e :: e in counts ==> counts[e] >= 0
    ensures ParseCounts(CountsText(counts, FiveElements.AllElements)) == counts
    ensures counts == map[] ==> CountsText(counts, FiveElements.AllElements) == ""
  {
    var es := FiveElements.AllElements;
    SplitCountsText(counts, es, "");
    assert CountsText(counts, es) + "" == CountsText(counts, es);
    var parts := Text.Split(CountsText(counts, es), ' ');
    assert parts[..|parts| - 1] == CountPieces(counts, es);
    PiecesOfCounts(counts, es);
    assert (map e | e in es && e in counts :: counts[e]) == counts by {
      forall e | e in counts ensures e in es {
        assert es[e.Ordinal()] == e;
      }
    }
    if counts == map[] {
      EmptyCountsText(counts, es);
    }
  }

  lemma {:induction false} EmptyCountsText(counts: map<FiveElements.Element, int>, es: seq<FiveElements.Element>)
    requires counts == map[]
    ensures CountsText(counts, es) == ""
  {
    if |es| > 0 {
      EmptyCountsText(counts, es[..|es| - 1]);
    }
  }
}

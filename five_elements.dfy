/** The Five Elements (五行) and the element of each stem and each branch
    (FiveElements.java). Both classifiers are total: SHUI is the case that
    falls through. */
module FiveElements {
  import opened HeavenlyStem
  import Earthly

  datatype Element = Jin | Mu | Shui | Huo | Tu {

    /** Java's `ordinal()`, which is also the order of a `TreeMap` keyed by element. */
    function Ordinal(): (r: nat)
      ensures r < 5 && AllElements[r] == this
    {
      match this
      case Jin => 0 case Mu => 1 case Shui => 2 case Huo => 3 case Tu => 4
    }

    /** The `code` field: 1..5 in declaration order. */
    function Code(): (c: nat)
      ensures c == Ordinal() + 1
    {
      match this
      case Jin => 1 case Mu => 2 case Shui => 3 case Huo => 4 case Tu => 5
    }

    /** The `name` field: one character. */
    function Name(): (s: string)
      ensures |s| == 1
    {
      match this
      case Jin => "金" case Mu => "木" case Shui => "水" case Huo => "火" case Tu => "土"
    }
  }

  /** `FiveElements.values()`. */
  const AllElements: seq<Element> := [Jin, Mu, Shui, Huo, Tu]

  /** The elements in the order the stems take them, two stems each: wood,
      fire, earth, metal, water. */
  const StemElementCycle: seq<Element> := [Mu, Huo, Tu, Jin, Shui]

  /** `getFiveElementsByHeavenlyStem`: the stems go in adjacent pairs through
      the cycle wood, fire, earth, metal, water. */
  function OfStem(s: Stem): (e: Element)
    ensures e == StemElementCycle[s.Ordinal() / 2]
  {
    if s == Jia || s == Yi then Mu
    else if s == Bing || s == Ding then Huo
    else if s == Wu || s == Ji then Tu
    else if s == Geng || s == Xin then Jin
    else Shui
  }

  /** Two stems share an element exactly when they are the same adjacent pair,
      and every element is taken by a pair: each element has exactly two stems. */
  lemma OfStemPairs(s: Stem, t: Stem)
    ensures OfStem(s) == OfStem(t) <==> s.Ordinal() / 2 == t.Ordinal() / 2
  {
    StemCycleDistinct(s.Ordinal() / 2, t.Ordinal() / 2);
  }

  /** Every element is the element of an adjacent pair of stems. */
  lemma StemPairOf(e: Element)
    ensures exists k :: 0 <= k < 5 && OfStem(AllStems[2 * k]) == e && OfStem(AllStems[2 * k + 1]) == e
  {
    var k := match e case Mu => 0 case Huo => 1 case Tu => 2 case Jin => 3 case Shui => 4;
    assert OfStem(AllStems[2 * k]) == e && OfStem(AllStems[2 * k + 1]) == e;
  }

  /** No element appears twice in the stems' cycle. */
  lemma StemCycleDistinct(i: int, j: int)
    requires 0 <= i < 5 && 0 <= j < 5
    ensures StemElementCycle[i] == StemElementCycle[j] <==> i == j
  {
    assert StemElementCycle[i].Ordinal() == [1, 3, 4, 0, 2][i];
  }

  /** The elements of the four seasons' middle branches, starting from ZI:
      water, wood, fire, metal. */
  const BranchElementCycle: seq<Element> := [Shui, Mu, Huo, Jin]

  /** `getFiveElementsByEarthly`: the branches CHOU, CHEN, WEI and XU, one in
      every three, are earth; the rest go in pairs (HAI and ZI, YIN and MOU,
      SI and WU, SHEN and YOU) through water, wood, fire and metal. */
  function OfBranch(b: Earthly.Branch): (e: Element)
    ensures b.Ordinal() % 3 == 1 ==> e == Tu
    ensures b.Ordinal() % 3 != 1 ==> e == BranchElementCycle[((b.Ordinal() + 1) % 12) / 3]
  {
    if b == Earthly.Yin || b == Earthly.Mou then Mu
    else if b == Earthly.Si || b == Earthly.Wu then Huo
    else if b == Earthly.Chen || b == Earthly.Chou then Tu
    else if b == Earthly.Xu || b == Earthly.Wei then Tu
    else if b == Earthly.Shen || b == Earthly.You then Jin
    else Shui
  }

  /** The elements of the twelve branches in declaration order. */
  function BranchElements(): (es: seq<Element>)
    ensures |es| == 12 && forall i :: 0 <= i < 12 ==> es[i] == OfBranch(Earthly.AllBranches[i])
  {
    seq(12, i requires 0 <= i < 12 => OfBranch(Earthly.AllBranches[i]))
  }

  /** Earth takes four branches and every other element exactly two. */
  lemma BranchElementCounts(e: Element)
    ensures multiset(BranchElements())[e] == if e == Tu then 4 else 2
  {
    BranchElementsInOrder();
    ElementCountsInOrder(e);
  }

  lemma BranchElementsInOrder()
    ensures BranchElements() == [Shui, Tu, Mu, Mu, Tu, Huo, Huo, Tu, Jin, Jin, Tu, Shui]
  {
  }

  lemma ElementCountsInOrder(e: Element)
    ensures multiset([Shui, Tu, Mu, Mu, Tu, Huo, Huo, Tu, Jin, Jin, Tu, Shui])[e] == if e == Tu then 4 else 2
  {
  }
}

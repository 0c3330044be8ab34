/** Players as the statistics service describes them, their height and
    weight, and the selection of the tallest and the heaviest player among
    the matches of a search. */
module Players {
  import opened Sequences

  datatype Option<T> = None | Some(value: T)

  /** A player record. Height comes in feet and inches and weight in pounds,
      each of which the service may leave empty; `team` is the id of the
      player's team, if the record names one. */
  datatype Player = Player(
    id: int,
    firstName: string,
    lastName: string,
    heightFeet: Option<int>,
    heightInches: Option<int>,
    weightPounds: Option<int>,
    position: string,
    team: Option<int>)

  /** What asking a player for a measurement gives: the "Not found" marker,
      a value, or a `TypeError` (arithmetic on an empty field). */
  datatype Reading = NotFound | Known(amount: int) | TypeError

  /** What a search for the tallest or heaviest player ends in. */
  datatype Selection = Nobody | Found(player: Player) | Raised

  datatype Attribute = ByHeight | ByWeight

  // ---------------------------------------------------------------------------
  // Measurements

  /** `Player.height`, ranked by total inches. "Not found" only when both
      fields are empty; with exactly one empty the arithmetic raises. */
  function HeightOf(p: Player): (r: Reading)
    ensures r == NotFound <==> p.heightFeet == None && p.heightInches == None
    ensures r == TypeError <==> (p.heightFeet == None) != (p.heightInches == None)
    ensures r.Known? ==> r.amount == p.heightFeet.value * 12 + p.heightInches.value
  {
    match (p.heightFeet, p.heightInches)
    case (None, None) => NotFound
    case (Some(feet), Some(inches)) => Known(feet * 12 + inches)
    case _ => TypeError
  }

  /** `Player.weight`, ranked by pounds: "Not found" exactly when the field
      is empty; it never raises. */
  function WeightOf(p: Player): (r: Reading)
    ensures r == NotFound <==> p.weightPounds == None
    ensures r != TypeError
    ensures r.Known? ==> r.amount == p.weightPounds.value
  {
    match p.weightPounds
    case None => NotFound
    case Some(pounds) => Known(pounds)
  }

  function Measure(p: Player, a: Attribute): Reading {
    match a
    case ByHeight => HeightOf(p)
    case ByWeight => WeightOf(p)
  }

  /** The metric height shown to the user, in hundredths of a metre
      (inches times 0.0254, rounded half up). */
  function Centimetres(inches: int): int {
    (inches * 254 + 50) / 100
  }

  /** The metric weight shown to the user, in hundredths of a kilogram
      (pounds divided by 2.2046, rounded half up). */
  function HundredthsOfKilogram(pounds: int): int {
    (pounds * 1000000 + 11023) / 22046
  }

  /** Rounding to centimetres never merges two different heights in inches,
      so ranking by inches ranks exactly as the metric heights do. */
  lemma CentimetresStrictlyIncreasing(a: int, b: int)
    requires a < b
    ensures Centimetres(a) < Centimetres(b)
  {
    var x, y := a * 254 + 50, b * 254 + 50;
    assert y - x == (b - a) * 254;
    assert y >= x + 100;
    DivisionGap(x, y, 100);
  }

  /** Likewise for weights: different pound values stay apart in kilograms. */
  lemma HundredthsOfKilogramStrictlyIncreasing(a: int, b: int)
    requires a < b
    ensures HundredthsOfKilogram(a) < HundredthsOfKilogram(b)
  {
    var x, y := a * 1000000 + 11023, b * 1000000 + 11023;
    assert y - x == (b - a) * 1000000;
    assert y >= x + 22046;
    DivisionGap(x, y, 22046);
  }

  lemma DivisionGap(x: int, y: int, d: int)
    requires d > 0 && y >= x + d
    ensures x / d < y / d
  {
    var q := x / d;
    assert x < (q + 1) * d;
    assert y >= (q + 1) * d;
  }

  // ---------------------------------------------------------------------------
  // Filtering and ranking

  /** The players that have the attribute on record, in their input order
      (the loop that skips "Not found" and appends the rest). */
  function Having(ps: seq<Player>, a: Attribute): seq<Player> {
    if ps == [] then []
    else
      var init, last := ps[..|ps| - 1], ps[|ps| - 1];
      if Measure(last, a).Known? then Having(init, a) + [last] else Having(init, a)
  }

  /** The filter keeps the input's order and holds exactly the players
      that have the attribute, each as many times as the input does. */
  lemma HavingFilters(ps: seq<Player>, a: Attribute)
    ensures SubsequenceOf(Having(ps, a), ps)
    ensures forall p :: p in Having(ps, a) <==> p in ps && Measure(p, a).Known?
    ensures forall p :: multiset(Having(ps, a))[p] == if Measure(p, a).Known? then multiset(ps)[p] else 0
  {
    HavingKeepsOrder(ps, a);
    HavingCounts(ps, a);
    forall p ensures p in Having(ps, a) <==> p in ps && Measure(p, a).Known? {
      assert p in Having(ps, a) <==> p in multiset(Having(ps, a));
      assert p in ps <==> p in multiset(ps);
    }
  }

  lemma {:induction false} HavingKeepsOrder(ps: seq<Player>, a: Attribute)
    ensures SubsequenceOf(Having(ps, a), ps)
    decreases |ps|
  {
    if ps != [] {
      var init, last := ps[..|ps| - 1], ps[|ps| - 1];
      HavingKeepsOrder(init, a);
      assert ps == init + [last];
      SubsequenceExtend(Having(init, a), init, last);
    }
  }

  lemma {:induction false} HavingCounts(ps: seq<Player>, a: Attribute)
    ensures forall p :: multiset(Having(ps, a))[p] == if Measure(p, a).Known? then multiset(ps)[p] else 0
    decreases |ps|
  {
    if ps != [] {
      var init, last := ps[..|ps| - 1], ps[|ps| - 1];
      HavingCounts(init, a);
      assert ps == init + [last];
      assert multiset(ps) == multiset(init) + multiset{last};
    }
  }

  predicate AllKnown(ps: seq<Player>, a: Attribute) {
    forall i :: 0 <= i < |ps| ==> Measure(ps[i], a).Known?
  }

  /** `ps[k]` has the largest value of the attribute, and every player
      before it has a strictly smaller one. */
  predicate IsFirstMax(ps: seq<Player>, a: Attribute, k: int)
    requires AllKnown(ps, a)
  {
    && 0 <= k < |ps|
    && (forall j :: 0 <= j < |ps| ==> Measure(ps[j], a).amount <= Measure(ps[k], a).amount)
    && (forall j :: 0 <= j < k ==> Measure(ps[j], a).amount < Measure(ps[k], a).amount)
  }

  /** The position of the head of a stable sort in descending order:
      the first player with the largest value. */
  function FirstMax(ps: seq<Player>, a: Attribute): (k: nat)
    requires ps != [] && AllKnown(ps, a)
    ensures IsFirstMax(ps, a, k)
  {
    if |ps| == 1 then 0
    else
      var init := ps[..|ps| - 1];
      assert forall i :: 0 <= i < |init| ==> init[i] == ps[i];
      var k := FirstMax(init, a);
      if Measure(ps[|ps| - 1], a).amount > Measure(ps[k], a).amount then |ps| - 1 else k
  }

  /** The first element of `sorted(l, key=..., reverse=True)` as the
      interpreter computes it: the key of every element is taken first, so
      one `TypeError` key raises; keys that are all "Not found" strings
      compare equal and the stable sort keeps the first element in front;
      a mix of strings and numbers cannot be compared and raises; numbers
      give the first element of largest value. */
  function HeadOfSort(l: seq<Player>, a: Attribute): (r: Selection)
    requires l != []
    ensures r.Found? ==> r.player in l
    ensures AllKnown(l, a) ==> r.Found? && exists k :: IsFirstMax(l, a, k) && l[k] == r.player
  {
    if exists i :: 0 <= i < |l| && Measure(l[i], a).TypeError? then Raised
    else if forall i :: 0 <= i < |l| ==> Measure(l[i], a).NotFound? then Found(l[0])
    else if exists i :: 0 <= i < |l| && Measure(l[i], a).NotFound? then Raised
    else Found(l[FirstMax(l, a)])
  }

  /** `find_tallest` and, ranked by weight, the heaviest player as intended:
      a `TypeError` while filtering raises; with nobody left, "Not found";
      otherwise the head of the descending sort of those left. */
  function Extremal(ps: seq<Player>, a: Attribute): Selection {
    if exists i :: 0 <= i < |ps| && Measure(ps[i], a).TypeError? then Raised
    else
      var l := Having(ps, a);
      if l == [] then Nobody else HeadOfSort(l, a)
  }

  /** `find_heaviest` as written: filters on weight but sorts on height. */
  function HeaviestAsWritten(ps: seq<Player>): Selection {
    var l := Having(ps, ByWeight);
    if l == [] then Nobody else HeadOfSort(l, ByHeight)
  }

  /** The heaviest player as the method's name and documentation intend:
      filtered and ranked by weight. */
  function Heaviest(ps: seq<Player>): Selection {
    Extremal(ps, ByWeight)
  }

  // ---------------------------------------------------------------------------
  // What the selections promise

  /** `ps[i]` is the first player of the whole input whose value is the
      largest among the players that have the attribute. */
  predicate IsFirstMaxKnown(ps: seq<Player>, a: Attribute, i: int) {
    && 0 <= i < |ps|
    && Measure(ps[i], a).Known?
    && (forall j :: 0 <= j < |ps| && Measure(ps[j], a).Known? ==>
          Measure(ps[j], a).amount <= Measure(ps[i], a).amount)
    && (forall j :: 0 <= j < i && Measure(ps[j], a).Known? ==>
          Measure(ps[j], a).amount < Measure(ps[i], a).amount)
  }

  /** The head of the descending sort of the players that have the
      attribute, once they are all known to have it. */
  function HeadOfHaving(ps: seq<Player>, a: Attribute): (p: Player)
    requires Having(ps, a) != []
    ensures p in ps && Measure(p, a).Known?
  {
    var l := Having(ps, a);
    HavingFilters(ps, a);
    assert AllKnown(l, a) by {
      forall k | 0 <= k < |l| ensures Measure(l[k], a).Known? {
        assert l[k] in l;
      }
    }
    l[FirstMax(l, a)]
  }

  /** Filtering and then taking the first maximum picks, in the unfiltered
      input, the first player of largest value, found at position `i`. */
  lemma {:induction false} HavingFirstMax(ps: seq<Player>, a: Attribute) returns (i: nat)
    requires Having(ps, a) != []
    ensures IsFirstMaxKnown(ps, a, i) && ps[i] == HeadOfHaving(ps, a)
    decreases |ps|
  {
    var init, x := ps[..|ps| - 1], ps[|ps| - 1];
    assert ps == init + [x];
    HeadOfHavingStep(ps, a);
    if Having(init, a) == [] {
      HavingFilters(init, a);
      forall j | 0 <= j < |init| ensures !Measure(init[j], a).Known? {
        assert init[j] in init;
      }
      NewFirstMaxKnown(init, x, a);
      i := |init|;
    } else {
      var i' := HavingFirstMax(init, a);
      if Measure(x, a).Known? && Measure(x, a).amount > Measure(init[i'], a).amount {
        NewFirstMaxKnown(init, x, a);
        i := |init|;
      } else {
        KeepFirstMaxKnown(init, x, a, i');
        i := i';
      }
    }
  }

  /** Adding one player at the end: it becomes the head only when it has
      the attribute and a value strictly larger than the current head. */
  lemma HeadOfHavingStep(ps: seq<Player>, a: Attribute)
    requires Having(ps, a) != []
    ensures ps != []
    ensures Having(ps[..|ps| - 1], a) == [] ==> HeadOfHaving(ps, a) == ps[|ps| - 1]
    ensures Having(ps[..|ps| - 1], a) != [] ==>
      var x, h := ps[|ps| - 1], HeadOfHaving(ps[..|ps| - 1], a);
      HeadOfHaving(ps, a) == if Measure(x, a).Known? && Measure(x, a).amount > Measure(h, a).amount then x else h
  {
    var init, x := ps[..|ps| - 1], ps[|ps| - 1];
    var l, l' := Having(ps, a), Having(init, a);
    assert l == if Measure(x, a).Known? then l' + [x] else l';
    if l' != [] && Measure(x, a).Known? {
      assert l[..|l| - 1] == l';
    }
  }

  /** Appending a player no larger than the current first maximum keeps it. */
  lemma KeepFirstMaxKnown(ps: seq<Player>, x: Player, a: Attribute, i: int)
    requires IsFirstMaxKnown(ps, a, i)
    requires Measure(x, a).Known? ==> Measure(x, a).amount <= Measure(ps[i], a).amount
    ensures IsFirstMaxKnown(ps + [x], a, i)
  {
    var qs := ps + [x];
    assert forall j :: 0 <= j < |ps| ==> qs[j] == ps[j];
  }

  /** Appending a player larger than everyone before makes it the first maximum. */
  lemma NewFirstMaxKnown(ps: seq<Player>, x: Player, a: Attribute)
    requires Measure(x, a).Known?
    requires forall j :: 0 <= j < |ps| && Measure(ps[j], a).Known? ==>
      Measure(ps[j], a).amount < Measure(x, a).amount
    ensures IsFirstMaxKnown(ps + [x], a, |ps|)
  {
    var qs := ps + [x];
    assert forall j :: 0 <= j < |ps| ==> qs[j] == ps[j];
  }

  /** `find_tallest` (and the corrected heaviest search): "Not found"
      exactly when nothing raises and nobody has the attribute; when a
      player is found, it is the first player of the input with the largest
      value. */
  lemma ExtremalSelectsFirstMax(ps: seq<Player>, a: Attribute)
    ensures Extremal(ps, a) == Nobody <==>
      (forall i :: 0 <= i < |ps| ==> Measure(ps[i], a) == NotFound)
    ensures Extremal(ps, a) == Raised <==> exists i :: 0 <= i < |ps| && Measure(ps[i], a) == TypeError
    ensures Extremal(ps, a).Found? ==>
      exists i :: IsFirstMaxKnown(ps, a, i) && ps[i] == Extremal(ps, a).player
  {
    var l := Having(ps, a);
    HavingFilters(ps, a);
    if !exists i :: 0 <= i < |ps| && Measure(ps[i], a).TypeError? {
      if l == [] {
        forall i | 0 <= i < |ps| ensures Measure(ps[i], a) == NotFound {
          assert ps[i] in ps;
        }
      } else {
        assert l[0] in ps;
        assert AllKnown(l, a);
        var i := HavingFirstMax(ps, a);
      }
    }
  }

  /** Asking for weights never raises, so the corrected heaviest search only
      ever finds a player or reports "Not found". */
  lemma HeaviestNeverRaises(ps: seq<Player>)
    ensures Heaviest(ps) != Raised
    ensures Heaviest(ps) == Nobody <==> forall i :: 0 <= i < |ps| ==> ps[i].weightPounds == None
  {
    ExtremalSelectsFirstMax(ps, ByWeight);
  }

  /** When every weighed player also has a height on record, the heaviest
      search as written returns the tallest of the weighed players. */
  lemma HeaviestAsWrittenIsTallestWeighed(ps: seq<Player>)
    requires forall i :: 0 <= i < |ps| && ps[i].weightPounds != None ==> HeightOf(ps[i]).Known?
    ensures HeaviestAsWritten(ps) == Extremal(Having(ps, ByWeight), ByHeight)
  {
    var l := Having(ps, ByWeight);
    HavingFilters(ps, ByWeight);
    forall i | 0 <= i < |l| ensures HeightOf(l[i]).Known? {
      assert l[i] in ps;
    }
    HavingAllKnown(l, ByHeight);
  }

  /** The filtered list starts with the first player of the input that
      has the attribute, found at position `i`. */
  lemma {:induction false} HavingHead(ps: seq<Player>, a: Attribute) returns (i: nat)
    requires Having(ps, a) != []
    ensures i < |ps| && ps[i] == Having(ps, a)[0] && Measure(ps[i], a).Known?
    ensures forall j :: 0 <= j < i ==> !Measure(ps[j], a).Known?
    decreases |ps|
  {
    var init, x := ps[..|ps| - 1], ps[|ps| - 1];
    assert ps == init + [x];
    if Having(init, a) == [] {
      HavingFilters(init, a);
      forall j | 0 <= j < |init| ensures !Measure(ps[j], a).Known? {
        assert init[j] in init;
      }
      i := |init|;
    } else {
      i := HavingHead(init, a);
    }
  }

  /** The heaviest search as written reports "Not found" exactly when no
      player has a weight. */
  lemma HeaviestAsWrittenNobody(ps: seq<Player>)
    ensures HeaviestAsWritten(ps) == Nobody <==> forall i :: 0 <= i < |ps| ==> ps[i].weightPounds == None
  {
    var l := Having(ps, ByWeight);
    HavingFilters(ps, ByWeight);
    if l == [] {
      forall i | 0 <= i < |ps| ensures ps[i].weightPounds == None {
        assert ps[i] in ps;
      }
    } else {
      assert l[0] in l;
    }
  }

  /** Some player with a weight has a height that raises. */
  predicate WeighedHeightRaises(ps: seq<Player>) {
    exists i :: 0 <= i < |ps| && ps[i].weightPounds != None && HeightOf(ps[i]) == TypeError
  }

  /** One player with a weight has a height and another has none. */
  predicate WeighedHeightsMixed(ps: seq<Player>) {
    exists i, j :: 0 <= i < |ps| && 0 <= j < |ps| && ps[i].weightPounds != None && ps[j].weightPounds != None
      && HeightOf(ps[i]).Known? && HeightOf(ps[j]) == NotFound
  }

  /** The heaviest search as written raises exactly when some weighed
      player's height raises, or when one weighed player has a height and
      another weighed player has none (the sort cannot compare them). */
  lemma HeaviestAsWrittenRaises(ps: seq<Player>)
    ensures HeaviestAsWritten(ps) == Raised <==> WeighedHeightRaises(ps) || WeighedHeightsMixed(ps)
  {
    if WeighedHeightRaises(ps) {
      RaisingHeightRaises(ps);
    } else if WeighedHeightsMixed(ps) {
      MixedHeightsRaise(ps);
    } else if HeaviestAsWritten(ps) == Raised {
      RaisedHasCause(ps);
    }
  }

  lemma RaisingHeightRaises(ps: seq<Player>)
    requires WeighedHeightRaises(ps)
    ensures HeaviestAsWritten(ps) == Raised
  {
    var l := Having(ps, ByWeight);
    var i :| 0 <= i < |ps| && ps[i].weightPounds != None && HeightOf(ps[i]) == TypeError;
    HavingFilters(ps, ByWeight);
    assert ps[i] in ps;
    var k :| 0 <= k < |l| && l[k] == ps[i];
    assert Measure(l[k], ByHeight).TypeError?;
  }

  lemma MixedHeightsRaise(ps: seq<Player>)
    requires WeighedHeightsMixed(ps)
    ensures HeaviestAsWritten(ps) == Raised
  {
    var l := Having(ps, ByWeight);
    var i, j :| 0 <= i < |ps| && 0 <= j < |ps| && ps[i].weightPounds != None && ps[j].weightPounds != None
      && HeightOf(ps[i]).Known? && HeightOf(ps[j]) == NotFound;
    HavingFilters(ps, ByWeight);
    assert ps[i] in ps && ps[j] in ps;
    var k :| 0 <= k < |l| && l[k] == ps[i];
    var m :| 0 <= m < |l| && l[m] == ps[j];
    assert !Measure(l[k], ByHeight).NotFound? && Measure(l[m], ByHeight).NotFound?;
  }

  lemma RaisedHasCause(ps: seq<Player>)
    requires HeaviestAsWritten(ps) == Raised
    ensures WeighedHeightRaises(ps) || WeighedHeightsMixed(ps)
  {
    var l := Having(ps, ByWeight);
    HavingFilters(ps, ByWeight);
    if exists k :: 0 <= k < |l| && Measure(l[k], ByHeight).TypeError? {
      var k :| 0 <= k < |l| && Measure(l[k], ByHeight).TypeError?;
      assert l[k] in l;
      var i :| 0 <= i < |ps| && ps[i] == l[k];
      assert ps[i].weightPounds != None && HeightOf(ps[i]) == TypeError;
    } else {
      var k :| 0 <= k < |l| && !Measure(l[k], ByHeight).NotFound?;
      var m :| 0 <= m < |l| && Measure(l[m], ByHeight).NotFound?;
      assert l[k] in l && l[m] in l;
      var i :| 0 <= i < |ps| && ps[i] == l[k];
      var j :| 0 <= j < |ps| && ps[j] == l[m];
      assert ps[i].weightPounds != None && ps[j].weightPounds != None;
      assert HeightOf(ps[i]).Known? && HeightOf(ps[j]) == NotFound;
    }
  }

  /** When no weighed player has a height, every sort key is the "Not
      found" string, and the search as written returns the first weighed
      player. */
  lemma HeaviestAsWrittenUnmeasured(ps: seq<Player>)
    requires forall i :: 0 <= i < |ps| && ps[i].weightPounds != None ==> HeightOf(ps[i]) == NotFound
    ensures HeaviestAsWritten(ps) == Nobody ||
      exists i :: 0 <= i < |ps| && ps[i].weightPounds != None && HeaviestAsWritten(ps) == Found(ps[i])
        && forall j :: 0 <= j < i ==> ps[j].weightPounds == None
  {
    var l := Having(ps, ByWeight);
    if l != [] {
      HavingFilters(ps, ByWeight);
      forall k | 0 <= k < |l| ensures HeightOf(l[k]) == NotFound {
        assert l[k] in l;
        var i :| 0 <= i < |ps| && ps[i] == l[k];
      }
      var i := HavingHead(ps, ByWeight);
      assert HeaviestAsWritten(ps) == Found(ps[i]);
    }
  }

  /** Filtering a list in which everyone has the attribute changes nothing. */
  lemma {:induction false} HavingAllKnown(ps: seq<Player>, a: Attribute)
    requires AllKnown(ps, a)
    ensures Having(ps, a) == ps
    decreases |ps|
  {
    if ps != [] {
      var init := ps[..|ps| - 1];
      assert AllKnown(init, a) by {
        forall i | 0 <= i < |init| ensures Measure(init[i], a).Known? {
          assert init[i] == ps[i];
        }
      }
      HavingAllKnown(init, a);
      assert Having(ps, a) == Having(init, a) + [ps[|ps| - 1]];
      assert init + [ps[|ps| - 1]] == ps;
    }
  }

  /** A tall, light player and a shorter, heavier one. */
  const TallLight := Player(1, "Tall", "Light", Some(6), Some(10), Some(200), "C", None)
  const ShortHeavy := Player(2, "Short", "Heavy", Some(6), Some(0), Some(250), "F", None)

  /** The ranking defect: of a tall light player and a shorter heavy one,
      the search as written reports the tall one, although the other is
      heavier; the corrected search reports the heavier one. */
  lemma HeaviestAsWrittenMissesHeaviest()
    ensures WeightOf(ShortHeavy).amount > WeightOf(TallLight).amount
    ensures HeaviestAsWritten([TallLight, ShortHeavy]) == Found(TallLight)
    ensures Heaviest([TallLight, ShortHeavy]) == Found(ShortHeavy)
  {
    var ps := [TallLight, ShortHeavy];
    assert Having(ps, ByWeight) == ps by {
      assert ps[..1] == [TallLight] && [TallLight][..0] == [];
      assert Having([TallLight], ByWeight) == [TallLight];
    }
    AsWrittenRanksTallFirst(ps);
    CorrectedRanksHeavyFirst(ps);
  }

  lemma AsWrittenRanksTallFirst(ps: seq<Player>)
    requires ps == [TallLight, ShortHeavy] && Having(ps, ByWeight) == ps
    ensures HeaviestAsWritten(ps) == Found(TallLight)
  {
    assert AllKnown(ps, ByHeight);
    assert FirstMax(ps, ByHeight) == 0 by {
      assert ps[..1] == [TallLight];
    }
  }

  lemma CorrectedRanksHeavyFirst(ps: seq<Player>)
    requires ps == [TallLight, ShortHeavy] && Having(ps, ByWeight) == ps
    ensures Heaviest(ps) == Found(ShortHeavy)
  {
    assert AllKnown(ps, ByWeight);
    assert FirstMax(ps, ByWeight) == 1 by {
      assert ps[..1] == [TallLight];
    }
  }

  // ---------------------------------------------------------------------------
  // The two searches as the program runs them

  /** The loop both searches start with: ask every player for the
      attribute, keep those that have it, in order. Asking may raise, which
      ends the loop. */
  method KeepMeasured(playersFound: seq<Player>, a: Attribute) returns (playerList: seq<Player>, raised: bool)
    ensures raised <==> exists i :: 0 <= i < |playersFound| && Measure(playersFound[i], a).TypeError?
    ensures !raised ==> playerList == Having(playersFound, a)
  {
    playerList := [];
    for i := 0 to |playersFound|
      invariant playerList == Having(playersFound[..i], a)
      invariant forall k :: 0 <= k < i ==> !Measure(playersFound[k], a).TypeError?
    {
      var player := playersFound[i];
      var reading := Measure(player, a);
      assert playersFound[..i + 1][..i] == playersFound[..i];
      if reading.TypeError? {
        return playerList, true;
      }
      if reading != NotFound {
        playerList := playerList + [player];
      }
    }
    assert playersFound[..|playersFound|] == playersFound;
    raised := false;
  }

  /** `find_tallest`, returning the player it prints. */
  method FindTallest(playersFound: seq<Player>) returns (r: Selection)
    ensures r == Extremal(playersFound, ByHeight)
  {
    var playerList, raised := KeepMeasured(playersFound, ByHeight);
    if raised {
      return Raised;
    }
    if |playerList| == 0 {
      return Nobody;
    }
    r := HeadOfSort(playerList, ByHeight);
  }

  /** `find_heaviest` as written, returning the player it prints: the
      weighed players, sorted by height. */
  method FindHeaviest(playersFound: seq<Player>) returns (r: Selection)
    ensures r == HeaviestAsWritten(playersFound)
  {
    var playerList, raised := KeepMeasured(playersFound, ByWeight);
    if |playerList| == 0 {
      return Nobody;
    }
    r := HeadOfSort(playerList, ByHeight);
  }
}

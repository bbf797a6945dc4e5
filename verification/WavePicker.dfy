/** The level director's budgeted choice of enemy waves: a weighted draw among the waves it
    can afford, repeated while credits last. */
module WavePicker {
  import opened Binary32
  import opened Numbers

  datatype Archetype = Archetype(difficultyCost: int, weight: nat)

  // ---- The candidates of a round ----

  /** A cost compared with a `float` is converted to one first. */
  predicate Affordable(a: Archetype, credits: real) {
    FromInt(a.difficultyCost) <= credits
  }

  /** Half the credits are a `double`, for which neither side is rounded. */
  predicate Worthy(a: Archetype, credits: real) {
    Affordable(a, credits) && a.difficultyCost as real >= credits * 0.5
  }

  predicate Qualifies(a: Archetype, credits: real, worthy: bool) {
    if worthy then Worthy(a, credits) else Affordable(a, credits)
  }

  predicate InPool(pool: seq<Archetype>, ks: seq<nat>) {
    forall j :: 0 <= j < |ks| ==> ks[j] < |pool|
  }

  /** Pool positions below `n`, in order, of the waves that qualify. */
  function Qualifying(pool: seq<Archetype>, credits: real, worthy: bool, n: nat): (ks: seq<nat>)
    requires n <= |pool|
    ensures InPool(pool, ks)
    ensures forall k: nat :: k in ks <==> k < n && Qualifies(pool[k], credits, worthy)
  {
    if n == 0 then []
    else
      var ks := Qualifying(pool, credits, worthy, n - 1);
      if Qualifies(pool[n - 1], credits, worthy) then ks + [n - 1] else ks
  }

  /** Those worth at least half the credits or, when there is none, all affordable ones. */
  function Candidates(pool: seq<Archetype>, credits: real): (ks: seq<nat>)
    ensures InPool(pool, ks)
    ensures forall k: nat :: k in ks ==> k < |pool| && Affordable(pool[k], credits)
  {
    var worthy := Qualifying(pool, credits, true, |pool|);
    if worthy != [] then worthy else Qualifying(pool, credits, false, |pool|)
  }

  lemma AscendsMore(ks: seq<nat>, n: nat)
    requires Ascending(ks) && forall k :: k in ks ==> k < n
    ensures Ascending(ks + [n])
  {
    assert forall i :: 0 <= i < |ks| ==> ks[i] in ks;
  }

  lemma {:induction false} QualifyingAscends(pool: seq<Archetype>, credits: real, worthy: bool, n: nat)
    requires n <= |pool|
    ensures Ascending(Qualifying(pool, credits, worthy, n))
  {
    if n > 0 {
      QualifyingAscends(pool, credits, worthy, n - 1);
      AscendsMore(Qualifying(pool, credits, worthy, n - 1), n - 1);
      hide Qualifies;
      hide Ascending;
    }
  }

  /** Some wave the credits can pay for costs at least half of them. */
  ghost predicate HalfSpendable(pool: seq<Archetype>, credits: real) {
    exists j :: 0 <= j < |pool| && FromInt(pool[j].difficultyCost) <= credits
             && pool[j].difficultyCost as real >= credits * 0.5
  }

  /** The waves offered, each once and in pool order: those the credits can pay for and, where
      some of these cost at least half of them, only such. */
  lemma CandidatesExact(pool: seq<Archetype>, credits: real)
    ensures forall k: nat :: k in Candidates(pool, credits) <==>
              && k < |pool| && FromInt(pool[k].difficultyCost) <= credits
              && (HalfSpendable(pool, credits) ==> pool[k].difficultyCost as real >= credits * 0.5)
    ensures Ascending(Candidates(pool, credits))
  {
    var worthy := Qualifying(pool, credits, true, |pool|);
    QualifyingAscends(pool, credits, true, |pool|);
    QualifyingAscends(pool, credits, false, |pool|);
    SomeIn(worthy);
    hide Qualifying;
    hide FromInt;
    assert worthy != [] <==> HalfSpendable(pool, credits) by {
      if HalfSpendable(pool, credits) {
        var j :| 0 <= j < |pool| && FromInt(pool[j].difficultyCost) <= credits
              && pool[j].difficultyCost as real >= credits * 0.5;
        assert j in worthy;
      }
    }
  }

  function Weights(pool: seq<Archetype>, ks: seq<nat>): (ws: seq<nat>)
    requires InPool(pool, ks)
    ensures |ws| == |ks| && forall j :: 0 <= j < |ks| ==> ws[j] == pool[ks[j]].weight
  {
    if ks == [] then [] else Weights(pool, ks[..|ks| - 1]) + [pool[ks[|ks| - 1]].weight]
  }

  function Total(ws: seq<nat>): nat {
    if ws == [] then 0 else ws[0] + Total(ws[1..])
  }

  lemma {:induction false} TotalAppend(ws: seq<nat>, w: nat)
    ensures Total(ws + [w]) == Total(ws) + w
  {
    if ws == [] {
      assert (ws + [w])[1..] == [];
    } else {
      assert (ws + [w])[1..] == ws[1..] + [w];
      TotalAppend(ws[1..], w);
    }
  }

  // ---- The draw ----

  /** The candidate a draw selects: weights are used up in candidate order. */
  function Select(ws: seq<nat>, draw: nat): Option<nat> {
    if ws == [] then None
    else if draw <= ws[0] then Some(0)
    else
      match Select(ws[1..], draw - ws[0])
      case None => None
      case Some(k) => Some(k + 1)
  }

  /** A draw selects candidate `k` exactly when it lies among the `ws[k]` numbers that follow
      the weights before it. */
  lemma {:induction false} SelectIff(ws: seq<nat>, draw: nat, k: nat)
    requires draw >= 1 && k < |ws|
    ensures Select(ws, draw) == Some(k) <==> Total(ws[..k]) < draw <= Total(ws[..k]) + ws[k]
  {
    if k == 0 {
      assert ws[..0] == [];
    } else {
      assert ws[..k][1..] == ws[1..][..k - 1];
      if draw > ws[0] {
        SelectIff(ws[1..], draw - ws[0], k - 1);
      }
    }
  }

  /** Every draw up to the total weight selects a candidate: the fallback is never needed. */
  lemma {:induction false} SelectsAlways(ws: seq<nat>, draw: nat)
    requires 1 <= draw
    ensures Select(ws, draw).Some? <==> draw <= Total(ws)
    ensures Select(ws, draw).Some? ==> Select(ws, draw).value < |ws|
  {
    if ws != [] && draw > ws[0] {
      SelectsAlways(ws[1..], draw - ws[0]);
    }
  }

  lemma SelectedPositive(ws: seq<nat>, draw: nat)
    requires 1 <= draw <= Total(ws)
    ensures Select(ws, draw).Some? && Select(ws, draw).value < |ws| && ws[Select(ws, draw).value] > 0
  {
    SelectsAlways(ws, draw);
    SelectIff(ws, draw, Select(ws, draw).value);
    hide Total;
    hide Select;
  }

  lemma NoneLeft(ws: seq<nat>)
    ensures forall draw: nat :: Select(ws[|ws|..], draw) == None
  {
  }

  lemma SelectAt(ws: seq<nat>, j: nat, draw: nat)
    requires j < |ws|
    ensures Select(ws[j..], draw) == if draw <= ws[j] then Some(0)
                                     else match Select(ws[j + 1..], draw - ws[j])
                                          case None => None
                                          case Some(k) => Some(k + 1)
  {
    assert ws[j..][1..] == ws[j + 1..];
  }

  function DrawsFor(ws: seq<nat>, k: nat): set<nat> {
    set draw: nat | 1 <= draw <= Total(ws) && Select(ws, draw) == Some(k)
  }

  function Between(lo: nat, hi: nat): set<nat>
    decreases hi
  {
    if hi <= lo then {} else Between(lo, hi - 1) + {hi}
  }

  lemma {:induction false} BetweenHas(lo: nat, hi: nat, d: nat)
    ensures d in Between(lo, hi) <==> lo < d <= hi
    decreases hi
  {
    if lo < hi {
      BetweenHas(lo, hi - 1, d);
    }
  }

  lemma {:induction false} BetweenSize(lo: nat, hi: nat)
    requires lo <= hi
    ensures |Between(lo, hi)| == hi - lo
    decreases hi - lo
  {
    if lo < hi {
      BetweenSize(lo, hi - 1);
      BetweenHas(lo, hi - 1, hi);
    }
  }

  lemma {:induction false} PrefixTotal(ws: seq<nat>, k: nat)
    requires k < |ws|
    ensures Total(ws[..k]) + ws[k] <= Total(ws)
  {
    if k == 0 {
      assert ws[..0] == [];
    } else {
      assert ws[..k][1..] == ws[1..][..k - 1];
      PrefixTotal(ws[1..], k - 1);
    }
  }

  lemma DrawsBetween(ws: seq<nat>, k: nat, draw: nat)
    requires k < |ws|
    ensures draw in DrawsFor(ws, k) <==> draw in Between(Total(ws[..k]), Total(ws[..k]) + ws[k])
  {
    PrefixTotal(ws, k);
    BetweenHas(Total(ws[..k]), Total(ws[..k]) + ws[k], draw);
    hide Between;
    if draw >= 1 {
      SelectIff(ws, draw, k);
    }
    hide Total;
    hide Select;
  }

  lemma DrawsAre(ws: seq<nat>, k: nat)
    requires k < |ws|
    ensures DrawsFor(ws, k) == Between(Total(ws[..k]), Total(ws[..k]) + ws[k])
  {
    hide *;
    forall draw: nat
      ensures draw in DrawsFor(ws, k) <==> draw in Between(Total(ws[..k]), Total(ws[..k]) + ws[k])
    {
      DrawsBetween(ws, k, draw);
    }
  }

  /** Of the draws 1 to the total weight, exactly `ws[k]` select candidate `k`. */
  lemma FairShare(ws: seq<nat>, k: nat)
    requires k < |ws|
    ensures |DrawsFor(ws, k)| == ws[k]
  {
    DrawsAre(ws, k);
    hide *;
    BetweenSize(Total(ws[..k]), Total(ws[..k]) + ws[k]);
  }

  // ---- Whole runs ----

  function Cost(pool: seq<Archetype>, waves: seq<nat>): int
    requires InPool(pool, waves)
  {
    if waves == [] then 0 else Cost(pool, waves[..|waves| - 1]) + pool[waves[|waves| - 1]].difficultyCost
  }

  function Spend(credits: real, a: Archetype): real {
    Minus(credits, FromInt(a.difficultyCost))
  }

  /** The credits left when the waves have been picked, each subtraction rounded. */
  function After(pool: seq<Archetype>, credits: real, waves: seq<nat>): real
    requires InPool(pool, waves)
  {
    if waves == [] then credits
    else Spend(After(pool, credits, waves[..|waves| - 1]), pool[waves[|waves| - 1]])
  }

  /** Nothing more can be drawn: no credits, or no candidate with any weight. */
  predicate Exhausted(pool: seq<Archetype>, credits: real) {
    credits <= 0.0 || Total(Weights(pool, Candidates(pool, credits))) == 0
  }

  lemma {:induction false} TotalZero(ws: seq<nat>)
    ensures Total(ws) == 0 <==> forall i :: 0 <= i < |ws| ==> ws[i] == 0
  {
    if ws != [] {
      TotalZero(ws[1..]);
      assert forall i :: 1 <= i < |ws| ==> ws[i] == ws[1..][i - 1];
    }
  }

  /** It is over exactly when there are no credits or every wave offered has weight 0. */
  lemma ExhaustedIff(pool: seq<Archetype>, credits: real)
    ensures Exhausted(pool, credits)
       <==> credits <= 0.0 || forall k :: k in Candidates(pool, credits) ==> pool[k].weight == 0
  {
    var ks := Candidates(pool, credits);
    TotalZero(Weights(pool, ks));
    hide Candidates;
    hide Total;
    hide Weights;
    forall k | k in ks ensures exists i :: 0 <= i < |ks| && ks[i] == k {
    }
    assert forall i :: 0 <= i < |ks| ==> ks[i] in ks;
  }

  /** A draw may select wave `k`: it is a candidate of positive weight. */
  ghost predicate Drawable(pool: seq<Archetype>, credits: real, k: nat) {
    credits > 0.0 && k in Candidates(pool, credits) && pool[k].weight > 0
  }

  /** Wave `k` may be drawn after `before`. */
  ghost predicate DrawnNext(pool: seq<Archetype>, credits: real, before: seq<nat>, k: nat) {
    InPool(pool, before) && Drawable(pool, After(pool, credits, before), k)
  }

  ghost predicate Drawn(pool: seq<Archetype>, credits: real, waves: seq<nat>) {
    forall i :: 0 <= i < |waves| ==> DrawnNext(pool, credits, waves[..i], waves[i])
  }

  lemma NoneDrawn(pool: seq<Archetype>, credits: real)
    ensures Drawn(pool, credits, []) && After(pool, credits, []) == credits
  {
  }

  lemma DrawnMore(pool: seq<Archetype>, credits: real, waves: seq<nat>, k: nat)
    requires Drawn(pool, credits, waves) && DrawnNext(pool, credits, waves, k)
    ensures Drawn(pool, credits, waves + [k])
  {
    var waves' := waves + [k];
    assert waves'[..|waves|] == waves;
    hide DrawnNext;
    forall i | 0 <= i < |waves'| ensures DrawnNext(pool, credits, waves'[..i], waves'[i]) {
      if i < |waves| {
        assert waves'[..i] == waves[..i];
      }
    }
  }

  lemma DrawnLess(pool: seq<Archetype>, credits: real, before: seq<nat>, k: nat)
    requires Drawn(pool, credits, before + [k])
    ensures Drawn(pool, credits, before) && DrawnNext(pool, credits, before, k)
  {
    var waves := before + [k];
    hide DrawnNext;
    assert waves[..|before|] == before && DrawnNext(pool, credits, waves[..|before|], waves[|before|]);
    forall i | 0 <= i < |before| ensures DrawnNext(pool, credits, before[..i], before[i]) {
      assert before[..i] == waves[..i];
      assert DrawnNext(pool, credits, waves[..i], waves[i]);
    }
  }

  lemma AfterOne(pool: seq<Archetype>, credits: real, before: seq<nat>, k: nat)
    requires InPool(pool, before) && k < |pool|
    ensures InPool(pool, before + [k])
    ensures After(pool, credits, before + [k]) == Spend(After(pool, credits, before), pool[k])
    ensures Cost(pool, before + [k]) == Cost(pool, before) + pool[k].difficultyCost
  {
    assert (before + [k])[..|before|] == before;
    hide Spend;
  }

  lemma AffordsDrawable(pool: seq<Archetype>, credits: real, k: nat)
    requires Drawable(pool, credits, k)
    ensures k < |pool| && pool[k] in pool && pool[k].weight > 0 && 0.0 < credits && Affordable(pool[k], credits)
  {
    hide Affordable;
    hide Worthy;
  }

  lemma NoneQualify(pool: seq<Archetype>, credits: real)
    ensures Qualifying(pool, credits, true, 0) == Qualifying(pool, credits, false, 0) == []
    ensures Total(Weights(pool, [])) == 0
  {
  }

  /** One wave of the pool examined. */
  lemma QualifyOne(pool: seq<Archetype>, credits: real, worthy: bool, k: nat)
    requires k < |pool|
    ensures var ks := Qualifying(pool, credits, worthy, k);
            Qualifying(pool, credits, worthy, k + 1) == if Qualifies(pool[k], credits, worthy) then ks + [k] else ks
    ensures Total(Weights(pool, Qualifying(pool, credits, worthy, k) + [k]))
         == Total(Weights(pool, Qualifying(pool, credits, worthy, k))) + pool[k].weight
  {
    WeighOne(pool, Qualifying(pool, credits, worthy, k), k);
    hide Weights;
    hide Total;
    hide Qualifies;
  }

  // ---- What the draws decide ----

  /** Draw `d` picks wave `k`: it falls into the share of `k` among the candidates. */
  predicate Hits(pool: seq<Archetype>, credits: real, d: nat, k: nat) {
    var ks := Candidates(pool, credits);
    var hit := Select(Weights(pool, ks), d);
    hit.Some? && hit.value < |ks| && ks[hit.value] == k
  }

  /** `dist(_rng)`: draw `i` among `n` numbers. */
  type Dice = (nat, nat) -> nat

  ghost predicate Fair(dice: Dice) {
    forall i: nat, n: nat :: n > 0 ==> 1 <= dice(i, n) <= n
  }

  ghost predicate PickedAt(pool: seq<Archetype>, credits: real, waves: seq<nat>, i: nat, dice: Dice)
    requires i < |waves|
  {
    InPool(pool, waves[..i])
    && var left := After(pool, credits, waves[..i]);
       !Exhausted(pool, left) && Hits(pool, left, dice(i, Total(Weights(pool, Candidates(pool, left)))), waves[i])
  }

  /** Each wave is the one that its draw picks with the credits the waves before it have left. */
  ghost predicate Picked(pool: seq<Archetype>, credits: real, waves: seq<nat>, dice: Dice) {
    forall i :: 0 <= i < |waves| ==> PickedAt(pool, credits, waves, i, dice)
  }

  lemma Hit(pool: seq<Archetype>, credits: real, d: nat, k: nat)
    requires var ks := Candidates(pool, credits);
             var hit := Select(Weights(pool, ks), d);
             hit.Some? && hit.value < |ks| && k == ks[hit.value]
    ensures Hits(pool, credits, d, k)
  {
  }

  lemma NonePicked(pool: seq<Archetype>, credits: real, dice: Dice)
    ensures Picked(pool, credits, [], dice)
  {
  }

  lemma PickedMore(pool: seq<Archetype>, credits: real, waves: seq<nat>, k: nat, dice: Dice)
    requires Picked(pool, credits, waves, dice) && InPool(pool, waves)
    requires !Exhausted(pool, After(pool, credits, waves))
    requires var left := After(pool, credits, waves);
             Hits(pool, left, dice(|waves|, Total(Weights(pool, Candidates(pool, left)))), k)
    ensures Picked(pool, credits, waves + [k], dice)
  {
    hide Hits;
    hide After;
    hide InPool;
    hide Total;
    hide Weights;
    var waves' := waves + [k];
    assert waves'[..|waves|] == waves;
    forall i | 0 <= i < |waves'| ensures PickedAt(pool, credits, waves', i, dice) {
      if i < |waves| {
        assert waves'[..i] == waves[..i];
        assert PickedAt(pool, credits, waves, i, dice);
      }
    }
  }

  lemma {:induction false} AgreeUpTo(pool: seq<Archetype>, credits: real, a: seq<nat>, b: seq<nat>, dice: Dice,
                                     n: nat)
    requires Picked(pool, credits, a, dice) && Picked(pool, credits, b, dice) && n <= |a| && n <= |b|
    ensures a[..n] == b[..n]
  {
    hide PickedAt;
    if n > 0 {
      AgreeUpTo(pool, credits, a, b, dice, n - 1);
      PickedSame(pool, credits, a, b, n - 1, dice);
      assert a[..n] == a[..n - 1] + [a[n - 1]] && b[..n] == b[..n - 1] + [b[n - 1]];
    }
  }

  lemma HitsOne(pool: seq<Archetype>, left: real, j: nat, k: nat, dice: Dice, i: nat)
    requires var d := dice(i, Total(Weights(pool, Candidates(pool, left))));
             Hits(pool, left, d, j) && Hits(pool, left, d, k)
    ensures j == k
  {
    hide Candidates;
    hide Weights;
    hide Total;
    hide Select;
  }

  lemma PickedSame(pool: seq<Archetype>, credits: real, a: seq<nat>, b: seq<nat>, i: nat, dice: Dice)
    requires i < |a| && i < |b| && a[..i] == b[..i]
    requires PickedAt(pool, credits, a, i, dice) && PickedAt(pool, credits, b, i, dice)
    ensures a[i] == b[i]
  {
    hide After;
    hide Hits;
    hide Exhausted;
    HitsOne(pool, After(pool, credits, a[..i]), a[i], b[i], dice, i);
  }

  lemma NotOver(pool: seq<Archetype>, credits: real, waves: seq<nat>, i: nat, dice: Dice)
    requires i < |waves| && PickedAt(pool, credits, waves, i, dice)
    ensures InPool(pool, waves[..i]) && !Exhausted(pool, After(pool, credits, waves[..i]))
  {
    hide Exhausted;
    hide Hits;
    hide After;
  }

  lemma NotLonger(pool: seq<Archetype>, credits: real, a: seq<nat>, b: seq<nat>, dice: Dice)
    requires Picked(pool, credits, a, dice) && Picked(pool, credits, b, dice)
    requires InPool(pool, a) && Exhausted(pool, After(pool, credits, a))
    ensures |b| <= |a|
  {
    hide PickedAt;
    hide Exhausted;
    hide After;
    if |a| < |b| {
      AgreeUpTo(pool, credits, a, b, dice, |a|);
      assert a[..|a|] == a;
      NotOver(pool, credits, b, |a|, dice);
    }
  }

  /** The draws decide: of a pool and its credits the same ones pick the same waves. */
  lemma DrawsDecide(pool: seq<Archetype>, credits: real, a: seq<nat>, b: seq<nat>, dice: Dice)
    requires InPool(pool, a) && InPool(pool, b)
    requires Picked(pool, credits, a, dice) && Exhausted(pool, After(pool, credits, a))
    requires Picked(pool, credits, b, dice) && Exhausted(pool, After(pool, credits, b))
    ensures a == b
  {
    NotLonger(pool, credits, a, b, dice);
    NotLonger(pool, credits, b, a, dice);
    AgreeUpTo(pool, credits, a, b, dice, |a|);
    hide *;
    assert a[..|a|] == a && b[..|b|] == b;
  }

  // ---- What is spent ----

  /** What is left is the float nearest to the credits less the cost, as it was converted. */
  lemma SpendNearest(credits: real, a: Archetype, f: real)
    requires Affordable(a, credits) && IsFloat(f)
    ensures var exact := credits - FromInt(a.difficultyCost);
            IsFloat(Spend(credits, a)) && Distance(Spend(credits, a), exact) <= Distance(f, exact)
  {
    MinusNearest(credits, FromInt(a.difficultyCost), f);
    hide Minus;
    hide FromInt;
  }

  /** Costs that a float stands for exactly. */
  ghost predicate ExactCosts(pool: seq<Archetype>) {
    forall a :: a in pool ==> 0 <= a.difficultyCost && a.difficultyCost as real <= LIMIT
  }

  /** Up to 2^24 no subtraction is rounded: what was spent is what the waves cost. */
  lemma {:induction false} SpendsExactly(pool: seq<Archetype>, credits: real, waves: seq<nat>)
    requires ExactCosts(pool) && IsFloat(credits) && credits <= LIMIT && Drawn(pool, credits, waves)
    ensures InPool(pool, waves) && After(pool, credits, waves) == credits - Cost(pool, waves) as real
    ensures IsFloat(After(pool, credits, waves)) && After(pool, credits, waves) <= credits
    decreases |waves|
  {
    hide IsFloat;
    hide Drawn;
    hide Spend;
    if waves == [] {
      assert Cost(pool, waves) == 0;
    } else {
      var before, k := waves[..|waves| - 1], waves[|waves| - 1];
      assert waves == before + [k];
      DrawnLess(pool, credits, before, k);
      hide Drawable;
      SpendsExactly(pool, credits, before);
      AffordsDrawable(pool, After(pool, credits, before), k);
      AfterOne(pool, credits, before, k);
      hide After;
      hide Cost;
      SpendsCost(After(pool, credits, before), pool[k]);
    }
  }

  /** A cost is taken off without rounding, and so that a positive one makes progress. */
  lemma SpendsCost(credits: real, a: Archetype)
    requires IsFloat(credits) && credits <= LIMIT && 0 <= a.difficultyCost && Affordable(a, credits)
    ensures Spend(credits, a) == credits - FromInt(a.difficultyCost)
    ensures IsFloat(Spend(credits, a)) && Spend(credits, a) <= credits
    ensures Spend(credits, a) == credits <==> a.difficultyCost == 0
    ensures a.difficultyCost as real <= LIMIT ==> Spend(credits, a) == credits - a.difficultyCost as real
  {
    FromIntWhole(a.difficultyCost);
    FreeToZero();
    hide FromInt;
    MinusExact(credits, FromInt(a.difficultyCost));
    hide Minus;
    hide IsFloat;
    hide Whole;
  }

  lemma FreeToZero()
    ensures FromInt(0) == 0.0
  {
    FromIntWhole(0);
    hide FromInt;
  }

  // ---- When the picking ends ----

  ghost predicate Bounded(pool: seq<Archetype>, credits: real, bound: nat) {
    forall waves :: Drawn(pool, credits, waves) ==> |waves| <= bound
  }

  /** However the draws fall, the loop ends. */
  ghost predicate Ends(pool: seq<Archetype>, credits: real) {
    exists bound: nat :: Bounded(pool, credits, bound)
  }

  /** No wave that can be drawn at all gives credits. */
  ghost predicate NoRefunds(pool: seq<Archetype>) {
    forall a :: a in pool && a.weight > 0 ==> a.difficultyCost >= 0
  }

  /** Every wave that can be drawn at all costs something. */
  ghost predicate Priced(pool: seq<Archetype>) {
    forall a :: a in pool && a.weight > 0 ==> a.difficultyCost >= 1
  }

  /** Some round may draw a wave whose cost the credits absorb. */
  ghost predicate StallsAt(pool: seq<Archetype>, credits: real, before: seq<nat>, k: nat) {
    && Drawn(pool, credits, before) && DrawnNext(pool, credits, before, k)
    && k < |pool| && Spend(After(pool, credits, before), pool[k]) == After(pool, credits, before)
  }

  ghost predicate Stalls(pool: seq<Archetype>, credits: real) {
    exists before: seq<nat>, k: nat :: StallsAt(pool, credits, before, k)
  }

  /** Some round may draw a wave that costs nothing. */
  ghost predicate FreeAt(pool: seq<Archetype>, credits: real, before: seq<nat>, k: nat) {
    && Drawn(pool, credits, before) && DrawnNext(pool, credits, before, k)
    && k < |pool| && pool[k].difficultyCost == 0
  }

  ghost predicate OffersFree(pool: seq<Archetype>, credits: real) {
    exists before: seq<nat>, k: nat :: FreeAt(pool, credits, before, k)
  }

  /** What is left stays a float, and where nothing stalls each wave lowers it. */
  lemma {:induction false} DrawnCounts(pool: seq<Archetype>, credits: real, waves: seq<nat>)
    requires NoRefunds(pool) && IsFloat(credits) && Drawn(pool, credits, waves)
    ensures InPool(pool, waves) && IsFloat(After(pool, credits, waves)) && After(pool, credits, waves) <= credits
    ensures !Stalls(pool, credits) ==> |waves| + Count(After(pool, credits, waves)) <= Count(credits)
    decreases |waves|
  {
    hide IsFloat;
    hide Drawn;
    hide Spend;
    hide Count;
    if waves != [] {
      var before, k := waves[..|waves| - 1], waves[|waves| - 1];
      assert waves == before + [k];
      DrawnLess(pool, credits, before, k);
      hide Drawable;
      DrawnCounts(pool, credits, before);
      AffordsDrawable(pool, After(pool, credits, before), k);
      AfterOne(pool, credits, before, k);
      hide After;
      hide Cost;
      SpendsSome(After(pool, credits, before), pool[k]);
      assert !Stalls(pool, credits) ==> !StallsAt(pool, credits, before, k);
    }
  }

  lemma SpendsSome(credits: real, a: Archetype)
    requires IsFloat(credits) && 0 <= a.difficultyCost && Affordable(a, credits)
    ensures IsFloat(Spend(credits, a)) && Spend(credits, a) <= credits
    ensures Spend(credits, a) != credits ==> Count(Spend(credits, a)) < Count(credits)
  {
    FromIntWhole(a.difficultyCost);
    hide FromInt;
    hide Count;
    MinusBelow(credits, FromInt(a.difficultyCost));
    hide IsFloat;
    hide Minus;
    if Spend(credits, a) != credits {
      CountOrder(Spend(credits, a), credits);
    }
  }

  function Repeat(k: nat, n: nat): (waves: seq<nat>)
    ensures |waves| == n
  {
    if n == 0 then [] else Repeat(k, n - 1) + [k]
  }

  /** Where the credits absorb a cost, that wave can be drawn any number of times in a row. */
  lemma {:induction false} StallForever(pool: seq<Archetype>, credits: real, before: seq<nat>, k: nat, n: nat)
    requires StallsAt(pool, credits, before, k)
    ensures Drawn(pool, credits, before + Repeat(k, n)) && InPool(pool, before + Repeat(k, n))
    ensures After(pool, credits, before + Repeat(k, n)) == After(pool, credits, before)
  {
    hide Drawn;
    hide Drawable;
    hide After;
    if n == 0 {
      assert before + [] == before;
    } else {
      StallForever(pool, credits, before, k, n - 1);
      StallOnce(pool, credits, before, before + Repeat(k, n - 1), k);
      assert before + Repeat(k, n) == before + Repeat(k, n - 1) + [k];
    }
  }

  lemma StallOnce(pool: seq<Archetype>, credits: real, before: seq<nat>, waves: seq<nat>, k: nat)
    requires StallsAt(pool, credits, before, k) && Drawn(pool, credits, waves) && InPool(pool, waves)
    requires After(pool, credits, waves) == After(pool, credits, before)
    ensures Drawn(pool, credits, waves + [k]) && InPool(pool, waves + [k])
    ensures After(pool, credits, waves + [k]) == After(pool, credits, before)
  {
    hide Drawn;
    hide Spend;
    hide Drawable;
    hide After;
    DrawnMore(pool, credits, waves, k);
    AfterOne(pool, credits, waves, k);
  }

  /** From given credits the picking ends, however the draws fall, exactly when no round that
      can be reached offers a wave whose cost the credits absorb. */
  lemma EndsIff(pool: seq<Archetype>, credits: real)
    requires NoRefunds(pool) && IsFloat(credits)
    ensures Ends(pool, credits) <==> !Stalls(pool, credits)
  {
    hide Drawn;
    hide IsFloat;
    hide NoRefunds;
    hide StallsAt;
    hide Count;
    if Stalls(pool, credits) {
      var before: seq<nat>, k: nat :| StallsAt(pool, credits, before, k);
      if Ends(pool, credits) {
        var bound: nat :| Bounded(pool, credits, bound);
        StallForever(pool, credits, before, k, bound + 1);
        assert false;
      }
    } else {
      forall waves | Drawn(pool, credits, waves) ensures |waves| <= Count(credits) {
        DrawnCounts(pool, credits, waves);
      }
      assert Bounded(pool, credits, Count(credits));
    }
  }

  /** Up to 2^24 credits: exactly when no round that can be reached offers a free wave. */
  lemma EndsIffNothingFree(pool: seq<Archetype>, credits: real)
    requires NoRefunds(pool) && IsFloat(credits) && credits <= LIMIT
    ensures Ends(pool, credits) <==> !OffersFree(pool, credits)
  {
    EndsIff(pool, credits);
    forall before: seq<nat>, k: nat
      ensures StallsAt(pool, credits, before, k) <==> FreeAt(pool, credits, before, k)
    {
      StallsIffFree(pool, credits, before, k);
    }
    hide *;
  }

  lemma StallsIffFree(pool: seq<Archetype>, credits: real, before: seq<nat>, k: nat)
    requires NoRefunds(pool) && IsFloat(credits) && credits <= LIMIT
    ensures StallsAt(pool, credits, before, k) <==> FreeAt(pool, credits, before, k)
  {
    hide IsFloat;
    hide Drawn;
    hide Spend;
    hide Drawable;
    if Drawn(pool, credits, before) && DrawnNext(pool, credits, before, k) {
      DrawnCounts(pool, credits, before);
      AffordsDrawable(pool, After(pool, credits, before), k);
      hide After;
      SpendsCost(After(pool, credits, before), pool[k]);
    }
  }

  /** From all credits up to 2^24: exactly when every wave of positive weight has a positive
      cost, among the pools in which none gives credits. */
  lemma EndsIffPriced(pool: seq<Archetype>)
    ensures Priced(pool)
       <==> NoRefunds(pool) && forall credits: real :: IsFloat(credits) && credits <= LIMIT ==> Ends(pool, credits)
  {
    hide IsFloat;
    hide Drawn;
    hide Ends;
    if Priced(pool) {
      forall credits: real | IsFloat(credits) && credits <= LIMIT ensures Ends(pool, credits) {
        EndsIffNothingFree(pool, credits);
        forall before: seq<nat>, k: nat ensures !FreeAt(pool, credits, before, k) {
          if DrawnNext(pool, credits, before, k) {
            AffordsDrawable(pool, After(pool, credits, before), k);
          }
        }
      }
    } else if NoRefunds(pool) {
      var a :| a in pool && a.weight > 0 && a.difficultyCost < 1;
      var k :| 0 <= k < |pool| && pool[k] == a;
      HalfIsFloat();
      EndsIffNothingFree(pool, 0.5);
      FreeAtHalf(pool, k);
    }
  }

  lemma HalfIsFloat()
    ensures IsFloat(0.5)
  {
    WholeInt(1);
    FineWhole(1.0, SUBNORMAL - 1);
    hide Whole;
  }

  /** Half a credit buys nothing but what is free. */
  lemma FreeAtHalf(pool: seq<Archetype>, k: nat)
    requires k < |pool| && pool[k].weight > 0 && pool[k].difficultyCost == 0
    ensures FreeAt(pool, 0.5, [], k)
  {
    NoneDrawn(pool, 0.5);
    hide Drawn;
    hide After;
    forall j: nat | j < |pool| ensures !Worthy(pool[j], 0.5) {
      if pool[j].difficultyCost >= 1 {
        FromIntWhole(pool[j].difficultyCost);
      }
      hide FromInt;
    }
    FromIntWhole(0);
    hide FromInt;
    SomeIn(Qualifying(pool, 0.5, true, |pool|));
    assert k in Qualifying(pool, 0.5, false, |pool|);
    hide Qualifying;
  }

  lemma SomeIn(ks: seq<nat>)
    ensures ks != [] ==> exists k: nat :: k in ks
  {
    if ks != [] {
      assert ks[0] in ks;
    }
  }

  /** Beyond 2^24 positive costs are not enough: every other float absorbs a cost of 1, 2^25
      among them, so that the loop draws the one wave for ever and spends nothing. */
  lemma PricedStalls(m: nat)
    requires m % 2 == 0 && HALF_LIMIT < m as real <= LIMIT
    ensures var pool, credits := [Archetype(1, 1)], 2.0 * m as real;
            Priced(pool) && IsFloat(credits) && Spend(credits, pool[0]) == credits && !Ends(pool, credits)
  {
    var pool, credits := [Archetype(1, 1)], 2.0 * m as real;
    MinusOneAbsorbed(m);
    FromIntWhole(1);
    hide IsFloat;
    hide FromInt;
    hide Minus;
    OnlyCandidate(pool, credits);
    NoneDrawn(pool, credits);
    assert DrawnNext(pool, credits, [], 0);
    hide DrawnNext;
    hide Drawn;
    hide After;
    assert StallsAt(pool, credits, [], 0);
    hide StallsAt;
    EndsIff(pool, credits);
  }

  function HighestCost(pool: seq<Archetype>): (c: nat)
    ensures forall a :: a in pool ==> a.difficultyCost <= c
  {
    if pool == [] then 0
    else
      var c := HighestCost(pool[1..]);
      assert pool == [pool[0]] + pool[1..];
      if pool[0].difficultyCost > c then pool[0].difficultyCost else c
  }

  ghost predicate Rich(pool: seq<Archetype>, credits: real) {
    credits > 2.0 * HighestCost(pool) as real
  }

  /** With more credits than twice any cost no wave is worth half of them, so every affordable
      one is a candidate: a wave that is free, or gives credits, can be drawn for ever. */
  lemma {:induction false} FreeForever(pool: seq<Archetype>, k: nat, credits: real, n: nat)
    requires k < |pool| && pool[k].weight > 0 && pool[k].difficultyCost <= 0
    requires IsFloat(credits) && Rich(pool, credits)
    ensures Drawn(pool, credits, Repeat(k, n)) && InPool(pool, Repeat(k, n))
    ensures IsFloat(After(pool, credits, Repeat(k, n))) && After(pool, credits, Repeat(k, n)) >= credits
  {
    hide *;
    if n == 0 {
      NoneRepeated(pool, k, credits);
    } else {
      FreeForever(pool, k, credits, n - 1);
      FreeOnce(pool, k, credits, Repeat(k, n - 1));
      assert Repeat(k, n) == Repeat(k, n - 1) + [k] by {
        RepeatOne(k, n);
      }
    }
  }

  lemma RepeatOne(k: nat, n: nat)
    requires n > 0
    ensures Repeat(k, n) == Repeat(k, n - 1) + [k]
  {
  }

  lemma NoneRepeated(pool: seq<Archetype>, k: nat, credits: real)
    ensures Drawn(pool, credits, Repeat(k, 0)) && InPool(pool, Repeat(k, 0))
    ensures After(pool, credits, Repeat(k, 0)) == credits
  {
  }

  lemma FreeOnce(pool: seq<Archetype>, k: nat, credits: real, waves: seq<nat>)
    requires k < |pool| && pool[k].weight > 0 && pool[k].difficultyCost <= 0
    requires Rich(pool, credits) && Drawn(pool, credits, waves) && InPool(pool, waves)
    requires IsFloat(After(pool, credits, waves)) && After(pool, credits, waves) >= credits
    ensures Drawn(pool, credits, waves + [k]) && InPool(pool, waves + [k])
    ensures IsFloat(After(pool, credits, waves + [k])) && After(pool, credits, waves + [k]) >= credits
  {
    var left := After(pool, credits, waves);
    FreeDrawable(pool, k, credits, left);
    AfterOne(pool, credits, waves, k);
    MinusAbove(left, pool[k].difficultyCost);
    assert DrawnNext(pool, credits, waves, k);
    assert Spend(left, pool[k]) == Minus(left, FromInt(pool[k].difficultyCost));
    hide *;
    DrawnMore(pool, credits, waves, k);
  }

  lemma FreeDrawable(pool: seq<Archetype>, k: nat, credits: real, left: real)
    requires k < |pool| && pool[k].weight > 0 && pool[k].difficultyCost <= 0
    requires Rich(pool, credits) && left >= credits
    ensures Drawable(pool, left, k)
  {
    forall j: nat | j < |pool| ensures !Worthy(pool[j], left) {
      assert pool[j] in pool;
      hide FromInt;
    }
    NegativeInt(pool[k].difficultyCost);
    hide FromInt;
    hide HighestCost;
    SomeIn(Qualifying(pool, left, true, |pool|));
    assert k in Qualifying(pool, left, false, |pool|);
    hide Qualifying;
  }

  lemma OnlyCandidate(pool: seq<Archetype>, credits: real)
    requires |pool| == 1 && Affordable(pool[0], credits)
    ensures 0 in Candidates(pool, credits)
  {
    hide Affordable;
    SomeIn(Qualifying(pool, credits, true, |pool|));
    assert 0 in Qualifying(pool, credits, false, |pool|);
    hide Qualifying;
  }

  lemma NoneInPool(pool: seq<Archetype>)
    ensures InPool(pool, [])
  {
  }

  /** One wave picked. */
  lemma PickOne(pool: seq<Archetype>, credits: real, waves: seq<nat>, k: nat)
    requires Drawn(pool, credits, waves) && InPool(pool, waves)
    requires Drawable(pool, After(pool, credits, waves), k)
    ensures Drawn(pool, credits, waves + [k]) && k < |pool| && InPool(pool, waves + [k])
    ensures After(pool, credits, waves + [k]) == Spend(After(pool, credits, waves), pool[k])
    ensures Spend(After(pool, credits, waves), pool[k]) >= 0.0
  {
    AffordsDrawable(pool, After(pool, credits, waves), k);
    AfterOne(pool, credits, waves, k);
    hide Drawable;
    hide After;
    DrawnMore(pool, credits, waves, k);
    hide FromInt;
    hide Round;
  }

  class Director {
    var wavePool: seq<Archetype>
    var credits: real

    constructor (pool: seq<Archetype>)
      ensures wavePool == pool && credits == 0.0
    {
      wavePool, credits := pool, 0.0;
    }

    /** Spends the credits on a random choice of waves it could afford when drawn, until
        nothing more can be drawn. It requires just that there is an end: `EndsIff` says when. */
    method GetPickedWaves(dice: Dice) returns (waves: seq<nat>)
      requires Ends(wavePool, credits) && Fair(dice)
      modifies this`credits
      ensures Drawn(wavePool, old(credits), waves) && Picked(wavePool, old(credits), waves, dice)
      ensures InPool(wavePool, waves) && credits == After(wavePool, old(credits), waves)
      ensures old(credits) >= 0.0 ==> credits >= 0.0
      ensures IsFloat(old(credits)) && old(credits) <= LIMIT && ExactCosts(wavePool) ==>
                credits == old(credits) - Cost(wavePool, waves) as real
      ensures Exhausted(wavePool, credits)
    {
      hide Candidates;
      hide Drawn;
      hide Weights;
      hide Total;
      hide Select;
      hide After;
      hide IsFloat;
      hide Minus;
      hide FromInt;
      hide InPool;
      hide Picked;
      hide Hits;
      ghost var bound: nat :| Bounded(wavePool, credits, bound);
      waves := [];
      NoneDrawn(wavePool, credits);
      NoneInPool(wavePool);
      NonePicked(wavePool, credits, dice);
      while credits > 0.0
        invariant Drawn(wavePool, old(credits), waves) && Picked(wavePool, old(credits), waves, dice)
        invariant InPool(wavePool, waves)
        invariant credits == After(wavePool, old(credits), waves)
        invariant old(credits) >= 0.0 ==> credits >= 0.0
        decreases bound - |waves|
      {
        var candidates, totalWeight := FindCandidates();
        if candidates == [] || totalWeight == 0 {
          NoneQualify(wavePool, credits);
          break;
        }
        var randomValue := dice(|waves|, totalWeight);
        var selected := SelectByWeight(candidates, randomValue);
        Hit(wavePool, credits, randomValue, selected);
        PickedMore(wavePool, old(credits), waves, selected, dice);
        PickOne(wavePool, old(credits), waves, selected);
        waves := waves + [selected];
        credits := Minus(credits, FromInt(wavePool[selected].difficultyCost));
      }
      if IsFloat(old(credits)) && old(credits) <= LIMIT && ExactCosts(wavePool) {
        SpendsExactly(wavePool, old(credits), waves);
      }
    }

    method FindCandidates() returns (candidates: seq<nat>, totalWeight: nat)
      ensures candidates == Candidates(wavePool, credits)
      ensures totalWeight == Total(Weights(wavePool, candidates))
    {
      hide Qualifying;
      hide Weights;
      hide Total;
      hide FromInt;
      var minSpend := credits * 0.5;
      candidates, totalWeight := [], 0;
      NoneQualify(wavePool, credits);
      for k := 0 to |wavePool|
        invariant candidates == Qualifying(wavePool, credits, true, k)
        invariant totalWeight == Total(Weights(wavePool, candidates))
      {
        QualifyOne(wavePool, credits, true, k);
        if FromInt(wavePool[k].difficultyCost) <= credits && wavePool[k].difficultyCost as real >= minSpend {
          candidates := candidates + [k];
          totalWeight := totalWeight + wavePool[k].weight;
        }
      }
      if candidates == [] {
        totalWeight := 0;
        for k := 0 to |wavePool|
          invariant candidates == Qualifying(wavePool, credits, false, k)
          invariant totalWeight == Total(Weights(wavePool, candidates))
        {
          QualifyOne(wavePool, credits, false, k);
          if FromInt(wavePool[k].difficultyCost) <= credits {
            candidates := candidates + [k];
            totalWeight := totalWeight + wavePool[k].weight;
          }
        }
      }
    }

    method SelectByWeight(candidates: seq<nat>, draw: nat) returns (selected: nat)
      requires InPool(wavePool, candidates)
      requires 1 <= draw <= Total(Weights(wavePool, candidates))
      ensures Select(Weights(wavePool, candidates), draw).Some?
      ensures Select(Weights(wavePool, candidates), draw).value < |candidates|
      ensures selected == candidates[Select(Weights(wavePool, candidates), draw).value]
      ensures selected in candidates && wavePool[selected].weight > 0
    {
      ghost var ws := Weights(wavePool, candidates);
      SelectedPositive(ws, draw);
      NoneLeft(ws);
      hide Total;
      hide Select;
      assert ws[0..] == ws;
      var randomValue := draw;
      for j := 0 to |candidates|
        invariant 1 <= randomValue
        invariant Select(ws[j..], randomValue).Some? && j + Select(ws[j..], randomValue).value == Select(ws, draw).value
      {
        SelectAt(ws, j, randomValue);
        if randomValue <= wavePool[candidates[j]].weight {
          return candidates[j];
        }
        randomValue := randomValue - wavePool[candidates[j]].weight;
      }
      assert false;
    }
  }

  lemma WeighOne(pool: seq<Archetype>, ks: seq<nat>, k: nat)
    requires k < |pool| && InPool(pool, ks)
    ensures Total(Weights(pool, ks + [k])) == Total(Weights(pool, ks)) + pool[k].weight
  {
    assert (ks + [k])[..|ks|] == ks;
    TotalAppend(Weights(pool, ks), pool[k].weight);
  }
}

/**
 * The swipeable card of components/SwipeableImage.js.
 *
 * The card shows images[currentIndex] of a non-empty deck. A horizontal pan
 * gesture drags it (Update), and releasing the gesture either commits the
 * swipe, sending the card off-screen to the left or right, or cancels it,
 * snapping the card back (Release). When a commit animation finishes, the
 * card advances to the next image or, on the last image, notifies the parent
 * that the deck has ended (Complete). Two indicators ("check" for rightward
 * drags, "cross" for leftward ones) glow in proportion to the drag distance.
 *
 * Window width and offsets are reals; an animation `withTiming(target)` is
 * modelled as setting the animated value to its target.
 */
module SwipeCard {

  /** Fraction of the window width a drag must exceed for a release to commit. */
  const CommitFraction: real := 0.4

  /** Card tilt, in degrees, when the card is displaced by one window width. */
  const TiltPerWidth: real := 20.0

  function Abs(x: real): real {
    if x < 0.0 then -x else x
  }

  function Min(a: real, b: real): real {
    if a <= b then a else b
  }

  /** Drag distance at which an indicator saturates and beyond which a release commits. */
  function Threshold(w: real): (t: real)
    requires w > 0.0
    ensures 0.0 < t < w
  {
    w * CommitFraction
  }

  // ---------------------------------------------------------------------------
  // Indicator intensities during a drag
  // ---------------------------------------------------------------------------

  /** `Math.min(1, magnitude / (0.4 * w))`: proportional to the drag up to the threshold, then 1. */
  function Intensity(magnitude: real, w: real): (r: real)
    requires w > 0.0 && magnitude >= 0.0
    ensures 0.0 <= r <= 1.0
    ensures r == 1.0 <==> magnitude >= Threshold(w)
    ensures r == 0.0 <==> magnitude == 0.0
    ensures r < 1.0 ==> r * Threshold(w) == magnitude
  {
    var t := Threshold(w);
    var q := magnitude / t;
    assert q * t == magnitude;
    assert (q - 1.0) * t == magnitude - t;
    ScaleKeepsSign(q, t);
    ScaleKeepsSign(q - 1.0, t);
    Min(1.0, q)
  }

  /** A larger drag never dims an indicator. */
  lemma IntensityMonotone(m1: real, m2: real, w: real)
    requires w > 0.0 && 0.0 <= m1 <= m2
    ensures Intensity(m1, w) <= Intensity(m2, w)
  {
    var t, i1, i2 := Threshold(w), Intensity(m1, w), Intensity(m2, w);
    if i2 < 1.0 {
      assert i1 < 1.0;
      assert i1 * t == m1 && i2 * t == m2;
      var d := i2 - i1;
      assert d * t == m2 - m1;
      ScaleKeepsSign(d, t);
    }
  }

  /** Scaling by a positive factor keeps the sign. */
  lemma ScaleKeepsSign(x: real, k: real)
    requires k > 0.0
    ensures x < 0.0 <==> x * k < 0.0
    ensures x == 0.0 <==> x * k == 0.0
  {
  }

  /** Intensity of the green "check" indicator for a drag offset `tx`. */
  function CheckIntensity(tx: real, w: real): (r: real)
    requires w > 0.0
    ensures 0.0 <= r <= 1.0
    ensures r > 0.0 <==> tx > 0.0
    ensures r == 1.0 <==> tx >= Threshold(w)
    ensures tx > 0.0 && r < 1.0 ==> r * Threshold(w) == tx
  {
    if tx > 0.0 then Intensity(tx, w) else 0.0
  }

  /** Intensity of the red "cross" indicator for a drag offset `tx`. */
  function CrossIntensity(tx: real, w: real): (r: real)
    requires w > 0.0
    ensures 0.0 <= r <= 1.0
    ensures r > 0.0 <==> tx < 0.0
    ensures r == 1.0 <==> -tx >= Threshold(w)
    ensures tx < 0.0 && r < 1.0 ==> r * Threshold(w) == -tx
  {
    if tx > 0.0 then 0.0 else Intensity(Abs(tx), w)
  }

  // ---------------------------------------------------------------------------
  // Release decision and card tilt
  // ---------------------------------------------------------------------------

  /** What a release does: animate the card to an off-screen target, or snap it back. */
  datatype Resolution = Commit(target: real) | Cancel

  /** Target position the card animates to after a release. */
  function Target(r: Resolution): real {
    match r
    case Commit(t) => t
    case Cancel => 0.0
  }

  /** The release decision for a gesture that ends at offset `tx`. */
  function Resolve(tx: real, w: real): (r: Resolution)
    requires w > 0.0
    ensures r.Commit? <==> Abs(tx) > Threshold(w)
    ensures r.Commit? ==> Abs(r.target) == w && (r.target > 0.0 <==> tx > 0.0)
  {
    if Abs(tx) > Threshold(w) then
      Commit(if tx > 0.0 then w else -w)
    else
      Cancel
  }

  /** Card rotation in degrees: linear in the position, 20 degrees per window width. */
  function Rotation(position: real, w: real): (deg: real)
    requires w > 0.0
    ensures deg > 0.0 <==> position > 0.0
    ensures deg < 0.0 <==> position < 0.0
    ensures Abs(position) <= w ==> Abs(deg) <= TiltPerWidth
    ensures Abs(position) == w ==> Abs(deg) == TiltPerWidth
    ensures deg * w == position * TiltPerWidth
  {
    var q := position / w;
    assert q * w == position;
    assert Abs(q) * w == Abs(position) by {
      if q < 0.0 { assert (-q) * w == -position; }
    }
    assert (1.0 - Abs(q)) * w == w - Abs(position);
    ScaleKeepsSign(q, w);
    ScaleKeepsSign(1.0 - Abs(q), w);
    q * TiltPerWidth
  }

  /** The tilt map is additive, so it is the linear map its slope determines. */
  lemma RotationAdditive(p: real, q: real, w: real)
    requires w > 0.0
    ensures Rotation(p + q, w) == Rotation(p, w) + Rotation(q, w)
  {
    assert (p + q) / w == p / w + q / w;
  }

  /** Every position a release can target keeps the tilt within 20 degrees. */
  lemma ReleaseTiltBounded(tx: real, w: real)
    requires w > 0.0
    ensures Abs(Rotation(Target(Resolve(tx, w)), w)) <= TiltPerWidth
  {
  }

  // ---------------------------------------------------------------------------
  // The controller's state and its three events, as values
  // ---------------------------------------------------------------------------

  /** currentIndex, position.value, checkOpacity.value and crossOpacity.value. */
  datatype CardState = CardState(index: nat, position: real, check: real, cross: real)

  /** The state on mount: first image, card centred, indicators off. */
  function Initial(): CardState {
    CardState(0, 0.0, 0.0, 0.0)
  }

  /**
   * The invariant the controller keeps for a deck of `len` images: the index
   * names an image, both intensities lie in [0, 1] and at most one is lit.
   */
  predicate Consistent(s: CardState, len: nat) {
    && s.index < len
    && 0.0 <= s.check <= 1.0
    && 0.0 <= s.cross <= 1.0
    && (s.check == 0.0 || s.cross == 0.0)
  }

  /** The pan gesture's update handler, for a drag offset `tx`. */
  function AfterUpdate(s: CardState, tx: real, w: real): (r: CardState)
    requires w > 0.0
    ensures r.index == s.index && r.position == tx
    ensures 0.0 <= r.check <= 1.0 && 0.0 <= r.cross <= 1.0
    ensures r.check == 0.0 || r.cross == 0.0
    ensures r.check > 0.0 <==> tx > 0.0
    ensures r.cross > 0.0 <==> tx < 0.0
    ensures r.check == 1.0 || r.cross == 1.0 <==> Abs(tx) >= Threshold(w)
    ensures tx > 0.0 && r.check < 1.0 ==> r.check * Threshold(w) == tx
    ensures tx < 0.0 && r.cross < 1.0 ==> r.cross * Threshold(w) == -tx
  {
    s.(position := tx, check := CheckIntensity(tx, w), cross := CrossIntensity(tx, w))
  }

  /** The pan gesture's end handler, for a final offset `tx`. */
  function AfterRelease(s: CardState, tx: real, w: real): (r: CardState)
    requires w > 0.0
    ensures r.index == s.index && r.check == 0.0 && r.cross == 0.0
    ensures Abs(tx) <= Threshold(w) ==> r.position == 0.0
    ensures Abs(tx) > Threshold(w) ==> Abs(r.position) == w && (r.position > 0.0 <==> tx > 0.0)
  {
    s.(position := Target(Resolve(tx, w)), check := 0.0, cross := 0.0)
  }

  /** True when the next commit completion reaches the end of the deck. */
  predicate AtLastCard(s: CardState, len: nat) {
    s.index + 1 >= len
  }

  /** onSwipeComplete: advance to the next image, or leave everything as it is at the end. */
  function AfterComplete(s: CardState, len: nat): (r: CardState)
    ensures AtLastCard(s, len) ==> r == s
    ensures !AtLastCard(s, len) ==> r.index == s.index + 1 && r.position == 0.0
    ensures r.check == s.check && r.cross == s.cross
  {
    if AtLastCard(s, len) then s else s.(index := s.index + 1, position := 0.0)
  }

  /** The discrete events the controller reacts to. */
  datatype Event =
    | Drag(tx: real)     // a gesture update
    | Lift(tx: real)     // the gesture ends
    | SwipeDone          // the commit animation has finished

  function Step(s: CardState, e: Event, len: nat, w: real): (r: CardState)
    requires w > 0.0
    ensures Consistent(s, len) ==> Consistent(r, len)
    ensures r.index == s.index || (e.SwipeDone? && r.index == s.index + 1)
  {
    match e
    case Drag(tx) => AfterUpdate(s, tx, w)
    case Lift(tx) => AfterRelease(s, tx, w)
    case SwipeDone => AfterComplete(s, len)
  }

  /** The state after a sequence of events, processed one at a time in order. */
  function Run(s: CardState, events: seq<Event>, len: nat, w: real): CardState
    requires w > 0.0
    decreases |events|
  {
    if events == [] then s else Run(Step(s, events[0], len, w), events[1..], len, w)
  }

  /** Number of commit completions in an event sequence. */
  function Completions(events: seq<Event>): nat
    decreases |events|
  {
    if events == [] then 0 else (if events[0].SwipeDone? then 1 else 0) + Completions(events[1..])
  }

  /**
   * From a consistent state (in particular from Initial() with a deck of at
   * least one image) no sequence of events takes the index out of the deck or
   * breaks the indicator invariant.
   */
  lemma {:induction false} RunStaysConsistent(s: CardState, events: seq<Event>, len: nat, w: real)
    requires w > 0.0 && Consistent(s, len)
    ensures Consistent(Run(s, events, len, w), len)
    decreases |events|
  {
    if events != [] {
      RunStaysConsistent(Step(s, events[0], len, w), events[1..], len, w);
    }
  }

  /** The index never moves backwards and advances at most once per commit completion. */
  lemma {:induction false} RunAdvancesByCompletions(s: CardState, events: seq<Event>, len: nat, w: real)
    requires w > 0.0
    ensures s.index <= Run(s, events, len, w).index <= s.index + Completions(events)
    decreases |events|
  {
    if events != [] {
      RunAdvancesByCompletions(Step(s, events[0], len, w), events[1..], len, w);
    }
  }

  /** A mounted card with a non-empty deck starts consistent. */
  lemma InitialConsistent(len: nat)
    requires len >= 1
    ensures Consistent(Initial(), len)
  {
  }

  /**
   * The swipe direction does not change the outcome: committing to the right
   * or to the left and then completing gives the same index, the same
   * indicators and, unless the deck has ended, the same position.
   */
  lemma DirectionIrrelevant(s: CardState, d: real, len: nat, w: real)
    requires w > 0.0 && d > Threshold(w)
    ensures var right := AfterComplete(AfterRelease(s, d, w), len);
            var left := AfterComplete(AfterRelease(s, -d, w), len);
            && right.index == left.index
            && right.check == left.check && right.cross == left.cross
            && (!AtLastCard(s, len) ==> right == left)
  {
  }

  /**
   * The end-of-deck branch is not terminal: on the last card every further
   * committed swipe leaves the index where it is and reaches the end again.
   */
  lemma EndOfDeckRepeats(s: CardState, tx: real, len: nat, w: real)
    requires w > 0.0 && AtLastCard(s, len)
    ensures var t := AfterComplete(AfterRelease(s, tx, w), len);
            t.index == s.index && AtLastCard(t, len)
  {
  }

  /**
   * A deck [A, B, C]: a drag released at +0.5w commits and shows B, one
   * released at -0.5w commits and shows C, and a third commit finds C is the
   * last card, so its completion reaches the end of the deck.
   */
  lemma ThreeCardWalkthrough(w: real)
    requires w > 0.0
    ensures var afterTwo := Run(Initial(), [Drag(0.5 * w), Lift(0.5 * w), SwipeDone,
                                            Drag(-0.5 * w), Lift(-0.5 * w), SwipeDone], 3, w);
            && afterTwo.index == 2
            && afterTwo.position == 0.0
            && AtLastCard(Run(afterTwo, [Drag(0.5 * w), Lift(0.5 * w)], 3, w), 3)
  {
    var d := 0.5 * w;
    assert Abs(d) > Threshold(w) && Abs(-d) > Threshold(w);
    var first := [Drag(d), Lift(d), SwipeDone];
    var second := [Drag(-d), Lift(-d), SwipeDone];
    var third := [Drag(d), Lift(d)];
    var s1 := AfterComplete(AfterRelease(AfterUpdate(Initial(), d, w), d, w), 3);
    var s2 := AfterComplete(AfterRelease(AfterUpdate(s1, -d, w), -d, w), 3);
    RunThree(Initial(), first, 3, w);
    RunThree(s1, second, 3, w);
    RunConcat(Initial(), first, second, 3, w);
    assert first + second == [Drag(0.5 * w), Lift(0.5 * w), SwipeDone,
                              Drag(-0.5 * w), Lift(-0.5 * w), SwipeDone];
    assert s2.index == 2;
    assert third[1..] == [Lift(d)];
    assert Run(s2, third, 3, w) == Run(AfterUpdate(s2, d, w), [Lift(d)], 3, w);
  }

  /** Unfolds Run over a three-event sequence. */
  lemma RunThree(s: CardState, events: seq<Event>, len: nat, w: real)
    requires w > 0.0 && |events| == 3
    ensures Run(s, events, len, w)
         == Step(Step(Step(s, events[0], len, w), events[1], len, w), events[2], len, w)
  {
    var s1 := Step(s, events[0], len, w);
    var s2 := Step(s1, events[1], len, w);
    var s3 := Step(s2, events[2], len, w);
    assert events[1..][0] == events[1];
    assert events[1..][1..] == [events[2]];
    assert [events[2]][1..] == [];
    assert Run(s2, [events[2]], len, w) == Run(s3, [], len, w) == s3;
    assert Run(s1, events[1..], len, w) == Run(s2, [events[2]], len, w);
  }

  /** Running two event sequences one after the other is running their concatenation. */
  lemma {:induction false} RunConcat(s: CardState, a: seq<Event>, b: seq<Event>, len: nat, w: real)
    requires w > 0.0
    ensures Run(s, a + b, len, w) == Run(Run(s, a, len, w), b, len, w)
    decreases |a|
  {
    if a == [] {
      assert a + b == b;
    } else {
      assert (a + b)[0] == a[0];
      assert (a + b)[1..] == a[1..] + b;
      RunConcat(Step(s, a[0], len, w), a[1..], b, len, w);
    }
  }

  // ---------------------------------------------------------------------------
  // The component, with the state it updates in place
  // ---------------------------------------------------------------------------

  class SwipeableImage {
    const images: seq<string>
    const windowWidth: real
    var currentIndex: nat
    var position: real
    var checkOpacity: real
    var crossOpacity: real

    /** The component's state as a value. */
    function State(): CardState
      reads this
    {
      CardState(currentIndex, position, checkOpacity, crossOpacity)
    }

    ghost predicate Valid()
      reads this
    {
      windowWidth > 0.0 && Consistent(State(), |images|)
    }

    /** Mounting the component on a non-empty deck. */
    constructor (images: seq<string>, windowWidth: real)
      requires |images| >= 1 && windowWidth > 0.0
      ensures Valid()
      ensures this.images == images && this.windowWidth == windowWidth
      ensures State() == Initial()
    {
      this.images := images;
      this.windowWidth := windowWidth;
      currentIndex := 0;
      position := 0.0;
      checkOpacity := 0.0;
      crossOpacity := 0.0;
    }

    /** The pan gesture's onUpdate handler. */
    method Update(translationX: real)
      requires Valid()
      modifies this
      ensures Valid()
      ensures State() == AfterUpdate(old(State()), translationX, windowWidth)
      ensures currentIndex == old(currentIndex) && position == translationX
      ensures checkOpacity == CheckIntensity(translationX, windowWidth)
      ensures crossOpacity == CrossIntensity(translationX, windowWidth)
    {
      position := translationX;
      if translationX > 0.0 {
        checkOpacity := Min(1.0, translationX / (windowWidth * CommitFraction));
        crossOpacity := 0.0;
      } else {
        crossOpacity := Min(1.0, Abs(translationX) / (windowWidth * CommitFraction));
        checkOpacity := 0.0;
      }
    }

    /**
     * The pan gesture's onEnd handler. The returned resolution says whether a
     * commit animation was started, whose completion is a later Complete call.
     */
    method Release(translationX: real) returns (resolution: Resolution)
      requires Valid()
      modifies this
      ensures Valid()
      ensures resolution == Resolve(translationX, windowWidth)
      ensures State() == AfterRelease(old(State()), translationX, windowWidth)
      ensures currentIndex == old(currentIndex) && position == Target(resolution)
      ensures checkOpacity == 0.0 && crossOpacity == 0.0
    {
      if Abs(translationX) > windowWidth * CommitFraction {
        resolution := Commit(if translationX > 0.0 then windowWidth else -windowWidth);
        position := resolution.target;
      } else {
        resolution := Cancel;
        position := 0.0;
      }
      checkOpacity := 0.0;
      crossOpacity := 0.0;
    }

    /**
     * onSwipeComplete, run when a commit animation finishes. `deckEnded` is
     * true exactly when the parent's onEnd callback is invoked.
     */
    method Complete() returns (deckEnded: bool)
      requires Valid()
      modifies this
      ensures Valid()
      ensures deckEnded == AtLastCard(old(State()), |images|)
      ensures State() == AfterComplete(old(State()), |images|)
      ensures deckEnded ==> currentIndex == old(currentIndex) && position == old(position)
      ensures !deckEnded ==> currentIndex == old(currentIndex) + 1 && position == 0.0
      ensures checkOpacity == old(checkOpacity) && crossOpacity == old(crossOpacity)
    {
      var nextIndex := currentIndex + 1;
      if nextIndex >= |images| {
        deckEnded := true;
        return;
      }
      deckEnded := false;
      currentIndex := nextIndex;
      position := 0.0;
    }
  }
}

/**
 * The slideshow screen of App.js.
 *
 * On mount the app fetches a list of pets, takes the first image URL of each
 * pet, shuffles the URLs in place and stores them. A timer advances the
 * displayed index every ten seconds, wrapping at the end of the list, and the
 * screen shows a loading placeholder until the list is non-empty.
 *
 * The HTTP request is replaced by its decoded payload (a sequence of pets) and
 * `Math.random` by an oracle sequence of draws.
 */
module Slideshow {

  datatype Option<T> = None | Some(value: T)

  // ---------------------------------------------------------------------------
  // URL extraction
  // ---------------------------------------------------------------------------

  datatype Image = Image(url: string)

  datatype Pet = Pet(images: seq<Image>)

  /**
   * `data.map(pet => pet.images[0].url)`. A pet without images makes the
   * callback throw, which rejects the whole request: None.
   */
  function ImageUrls(pets: seq<Pet>): (r: Option<seq<string>>)
    ensures r.Some? <==> forall k :: 0 <= k < |pets| ==> pets[k].images != []
    ensures r.Some? ==> |r.value| == |pets|
    ensures r.Some? ==> forall k :: 0 <= k < |pets| ==> r.value[k] == pets[k].images[0].url
    decreases |pets|
  {
    if pets == [] then Some([])
    else if pets[0].images == [] then None
    else
      match ImageUrls(pets[1..])
      case None =>
        assert pets[1..][0] == pets[1];
        None
      case Some(rest) =>
        assert forall k :: 1 <= k < |pets| ==> pets[1..][k - 1] == pets[k];
        Some([pets[0].images[0].url] + rest)
  }

  // ---------------------------------------------------------------------------
  // Fisher-Yates shuffle
  // ---------------------------------------------------------------------------

  /**
   * Oracle draws for shuffling n elements: the iteration for index i uses
   * draws[i], which `Math.floor(Math.random() * (i + 1))` keeps in [0, i].
   * draws[0] is never used.
   */
  predicate ValidDraws(draws: seq<nat>, n: nat) {
    |draws| == n && forall i :: 1 <= i < n ==> draws[i] <= i
  }

  /** `[s[i], s[j]] = [s[j], s[i]]`: the elements at i and j trade places. */
  function Swap<T>(s: seq<T>, i: nat, j: nat): (r: seq<T>)
    requires i < |s| && j < |s|
    ensures |r| == |s|
  {
    seq(|s|, k requires 0 <= k < |s| => if k == i then s[j] else if k == j then s[i] else s[k])
  }

  /** Slot i receives s[j], slot j receives s[i], and every other slot is left alone. */
  lemma SwapAt<T>(s: seq<T>, i: nat, j: nat, k: nat)
    requires i < |s| && j < |s| && k < |s|
    ensures Swap(s, i, j)[k] == if k == i then s[j] else if k == j then s[i] else s[k]
  {
  }

  /** A swap only reorders: the multiset of elements is unchanged. */
  lemma SwapPermutes<T>(s: seq<T>, i: nat, j: nat)
    requires i < |s| && j < |s|
    ensures multiset(Swap(s, i, j)) == multiset(s)
  {
    assert Swap(s, i, j) == s[i := s[j]][j := s[i]];
  }

  /**
   * The contents when the loop is about to run its iteration for index i,
   * or, for i = 0, when it has finished. The loop starts at i = |s| - 1 with
   * the input, and its iteration for i + 1 swaps slots i + 1 and draws[i + 1].
   */
  function Before<T>(s: seq<T>, draws: seq<nat>, i: nat): (r: seq<T>)
    requires ValidDraws(draws, |s|) && i < |s|
    ensures |r| == |s|
    decreases |s| - i
  {
    if i == |s| - 1 then s else Swap(Before(s, draws, i + 1), i + 1, draws[i + 1])
  }

  /** Every state the loop passes through is a permutation of the input. */
  lemma {:induction false} BeforePermutes<T>(s: seq<T>, draws: seq<nat>, i: nat)
    requires ValidDraws(draws, |s|) && i < |s|
    ensures multiset(Before(s, draws, i)) == multiset(s)
    decreases |s| - i
  {
    if i < |s| - 1 {
      BeforePermutes(s, draws, i + 1);
      StepPermutes(s, draws, i);
    }
  }

  /** One iteration of the loop permutes the contents. */
  lemma StepPermutes<T>(s: seq<T>, draws: seq<nat>, i: nat)
    requires ValidDraws(draws, |s|) && i < |s| - 1
    ensures multiset(Before(s, draws, i)) == multiset(Before(s, draws, i + 1))
  {
    SwapPermutes(Before(s, draws, i + 1), i + 1, draws[i + 1]);
  }

  /** The shuffled contents: the loop has run its iterations for |s| - 1 down to 1. */
  function Shuffled<T>(s: seq<T>, draws: seq<nat>): (r: seq<T>)
    requires ValidDraws(draws, |s|)
    ensures |r| == |s| && multiset(r) == multiset(s)
    ensures |s| <= 1 ==> r == s
  {
    if s == [] then s
    else
      BeforePermutes(s, draws, 0);
      Before(s, draws, 0)
  }

  /**
   * Once the iteration for index m has run, the slots above m are never
   * written again: every later iteration, for some k <= m, touches only
   * slots k and draws[k] <= k.
   */
  lemma {:induction false} SlotsAboveStayFixed<T>(s: seq<T>, draws: seq<nat>, i: nat, m: nat, j: nat)
    requires ValidDraws(draws, |s|) && i <= m < j < |s|
    ensures Before(s, draws, i)[j] == Before(s, draws, m)[j]
    decreases m - i
  {
    if i < m {
      SlotsAboveStayFixed(s, draws, i + 1, m, j);
      var prev := Before(s, draws, i + 1);
      assert draws[i + 1] <= i + 1 < j;
      assert Before(s, draws, i) == Swap(prev, i + 1, draws[i + 1]);
      SwapAt(prev, i + 1, draws[i + 1], j);
    }
  }

  /**
   * Slot i >= 1 of the result holds the element that the iteration for i
   * picked from slots [0, i] of the contents it found.
   */
  lemma ShuffledSlot<T>(s: seq<T>, draws: seq<nat>, i: nat)
    requires ValidDraws(draws, |s|) && 1 <= i < |s|
    ensures Shuffled(s, draws)[i] == Before(s, draws, i)[draws[i]]
  {
    SlotsAboveStayFixed(s, draws, 0, i - 1, i);
    var prev := Before(s, draws, i);
    assert Before(s, draws, i - 1) == Swap(prev, i, draws[i]);
    SwapAt(prev, i, draws[i], i);
  }

  /**
   * `shuffleArray`: shuffles `a` in place with the oracle draws and returns
   * the same array.
   */
  method ShuffleArray<T>(a: array<T>, draws: seq<nat>) returns (r: array<T>)
    requires ValidDraws(draws, a.Length)
    modifies a
    ensures r == a
    ensures a[..] == Shuffled(old(a[..]), draws)
    ensures multiset(a[..]) == multiset(old(a[..]))
  {
    ghost var original := a[..];
    var i := a.Length - 1;
    while i > 0
      invariant -1 <= i < a.Length && (a.Length > 0 ==> i >= 0)
      invariant a.Length > 0 ==> a[..] == Before(original, draws, i)
      invariant a.Length == 0 ==> a[..] == original
    {
      SwapElements(a, i, draws[i]);
      i := i - 1;
    }
    return a;
  }

  /** The destructuring swap `[a[i], a[j]] = [a[j], a[i]]` on the array. */
  method SwapElements<T>(a: array<T>, i: nat, j: nat)
    requires i < a.Length && j < a.Length
    modifies a
    ensures a[..] == Swap(old(a[..]), i, j)
  {
    a[i], a[j] := a[j], a[i];
  }

  /**
   * What the fetch stores with setImages: the shuffled first-image URLs, or
   * nothing when the extraction throws (the error is only logged).
   */
  function LoadedImages(pets: seq<Pet>, draws: seq<nat>): (r: seq<string>)
    requires ValidDraws(draws, |pets|)
    ensures ImageUrls(pets).None? ==> r == []
    ensures ImageUrls(pets).Some? ==> multiset(r) == multiset(ImageUrls(pets).value)
  {
    match ImageUrls(pets)
    case None => []
    case Some(urls) => Shuffled(urls, draws)
  }

  // ---------------------------------------------------------------------------
  // The interval tick and the render choice
  // ---------------------------------------------------------------------------

  /** `(prev + 1) % len` for a loaded list; both operands are non-negative. */
  function Tick(prev: nat, len: nat): (r: nat)
    requires len > 0
    ensures r < len
    ensures prev < len ==> r == (if prev + 1 == len then 0 else prev + 1)
  {
    (prev + 1) % len
  }

  /** The index after k ticks from `start`. */
  function Ticks(start: nat, len: nat, k: nat): nat
    requires len > 0
  {
    if k == 0 then start else Tick(Ticks(start, len, k - 1), len)
  }

  /** Starting from the first image, k ticks show image k mod len. */
  lemma {:induction false} TicksFromZero(len: nat, k: nat)
    requires len > 0
    ensures Ticks(0, len, k) == k % len
  {
    if k > 0 {
      TicksFromZero(len, k - 1);
      var q, p := (k - 1) / len, (k - 1) % len;
      assert k - 1 == q * len + p;
      if p + 1 == len {
        assert k == (q + 1) * len + 0;
        ModUnique(k, q + 1, 0, len);
      } else {
        ModUnique(k, q, p + 1, len);
      }
    }
  }

  /** The remainder is the unique r in [0, len) with x == q * len + r. */
  lemma ModUnique(x: int, q: int, r: int, len: int)
    requires len > 0 && 0 <= r < len && x == q * len + r
    ensures x % len == r
  {
    var q', r' := x / len, x % len;
    assert x == q' * len + r';
    assert (q - q') * len == r' - r;
    if q > q' {
      MulAtLeast(q - q', len);
    } else if q < q' {
      MulAtLeast(q' - q, len);
    }
  }

  lemma MulAtLeast(a: int, b: int)
    requires a >= 1 && b > 0
    ensures a * b >= b
  {
  }

  /** What the screen shows: an image with this URI (None is `undefined`), or the placeholder. */
  datatype Screen = Loading | Picture(uri: Option<string>)

  /** `images.length > 0 ? <Image uri=images[currentIndex]/> : <Text>Loading...</Text>`. */
  function Render(images: seq<string>, index: nat): (r: Screen)
    ensures r.Loading? <==> images == []
    ensures images != [] && index < |images| ==> r == Picture(Some(images[index]))
    ensures images != [] && index >= |images| ==> r == Picture(None)
  {
    if |images| > 0 then
      Picture(if index < |images| then Some(images[index]) else None)
    else
      Loading
  }

  /** Once loaded, every tick shows a real image of the list, in order. */
  lemma SlideshowShowsImages(images: seq<string>, k: nat)
    requires images != []
    ensures Render(images, Ticks(0, |images|, k)) == Picture(Some(images[k % |images|]))
  {
    TicksFromZero(|images|, k);
  }

  // ---------------------------------------------------------------------------
  // The tick as written, on JavaScript numbers
  // ---------------------------------------------------------------------------

  /** The index state as a JavaScript number: a natural number or NaN. */
  datatype JsIndex = Num(n: nat) | NaN

  /**
   * The tick exactly as written: it also fires while the list is still empty,
   * where `(prev + 1) % 0` is NaN, and NaN stays NaN under `+ 1` and `%`.
   */
  function TickAsWritten(prev: JsIndex, len: nat): (r: JsIndex)
    ensures r.Num? <==> prev.Num? && len > 0
    ensures r.Num? ==> r.n == Tick(prev.n, len)
  {
    match prev
    case NaN => NaN
    case Num(p) => if len == 0 then NaN else Num(Tick(p, len))
  }

  function TicksAsWritten(start: JsIndex, len: nat, k: nat): JsIndex {
    if k == 0 then start else TickAsWritten(TicksAsWritten(start, len, k - 1), len)
  }

  /** `images[currentIndex]` where the index is a JavaScript number. */
  function RenderAsWritten(images: seq<string>, index: JsIndex): Screen {
    match index
    case NaN => if images == [] then Loading else Picture(None)
    case Num(i) => Render(images, i)
  }

  /**
   * If the first tick fires before the fetch has delivered the list, the index
   * becomes NaN and never recovers: whatever list arrives later, no number of
   * ticks shows an image of it.
   */
  lemma {:induction false} EarlyTickStrandsSlideshow(images: seq<string>, k: nat)
    requires images != []
    ensures TickAsWritten(Num(0), 0) == NaN
    ensures TicksAsWritten(TickAsWritten(Num(0), 0), |images|, k) == NaN
    ensures RenderAsWritten(images, TicksAsWritten(TickAsWritten(Num(0), 0), |images|, k)) == Picture(None)
  {
    if k > 0 {
      EarlyTickStrandsSlideshow(images, k - 1);
    }
  }

  /** The tick with the evident intent restored: it leaves the index alone while the list is empty. */
  function GuardedTick(prev: nat, len: nat): (r: nat)
    ensures len == 0 ==> r == prev
    ensures len > 0 ==> r < len
  {
    if len == 0 then prev else Tick(prev, len)
  }

  function GuardedTicks(start: nat, len: nat, k: nat): nat {
    if k == 0 then start else GuardedTick(GuardedTicks(start, len, k - 1), len)
  }

  /**
   * With the guarded tick, any number of ticks before the list arrives leaves
   * the index at 0, and k ticks afterwards show image k mod len.
   */
  lemma {:induction false} GuardedTicksShowImages(images: seq<string>, early: nat, k: nat)
    requires images != []
    ensures GuardedTicks(0, 0, early) == 0
    ensures GuardedTicks(GuardedTicks(0, 0, early), |images|, k) == k % |images|
    ensures Render(images, GuardedTicks(GuardedTicks(0, 0, early), |images|, k))
         == Picture(Some(images[k % |images|]))
  {
    if early > 0 {
      GuardedTicksShowImages(images, early - 1, k);
    }
    GuardedMatchesTick(|images|, k);
    TicksFromZero(|images|, k);
  }

  /** On a loaded list the guarded tick agrees with the tick. */
  lemma {:induction false} GuardedMatchesTick(len: nat, k: nat)
    requires len > 0
    ensures GuardedTicks(0, len, k) == Ticks(0, len, k)
  {
    if k > 0 {
      GuardedMatchesTick(len, k - 1);
    }
  }
}

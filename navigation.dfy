/** The deck's navigation rules: index clamping, the `#slide-N` URL hash,
    the swipe threshold, and where a fresh page load lands. */
module Navigation {
  import opened Js

  /** Minimum horizontal travel, in pixels, for a touch to count as a swipe. */
  const SwipeThreshold := 50

  /** The index `goToSlide` settles on: raised to 0, then lowered to the last
      slide; an empty deck yields -1. */
  function Clamp(index: int, n: nat): (i: int)
    ensures n == 0 ==> i == -1
    ensures n > 0 ==> 0 <= i < n
    ensures 0 <= index < n ==> i == index
    ensures n > 0 && index < 0 ==> i == 0
    ensures n > 0 && index >= n ==> i == n - 1
  {
    var j := if index < 0 then 0 else index;
    if j >= n then n - 1 else j
  }

  /** The `location.hash` written for slide `index`, one-based. */
  function HashFor(index: int): (h: string)
    ensures |h| > |"#slide-"| && StartsWith(h, "#slide-")
  {
    "#slide-" + IntStr(index + 1)
  }

  /** The slide a URL hash asks for: the number after the first `#slide-`,
      read by `parseInt`, accepted when it names one of the `n` slides. */
  function UrlTarget(hash: string, n: nat): (r: Option<nat>)
    ensures r.Some? ==> r.value < n && hash != ""
    ensures r.Some? ==> ParseInt(ReplaceFirst(hash, "#slide-", "")) == Some(r.value + 1)
    ensures hash != "" && ParseInt(ReplaceFirst(hash, "#slide-", "")).Some? ==>
      var k := ParseInt(ReplaceFirst(hash, "#slide-", "")).value;
      1 <= k <= n ==> r == Some(k - 1)
  {
    if hash == "" then None
    else
      match ParseInt(ReplaceFirst(hash, "#slide-", ""))
      case Some(k) => if 1 <= k <= n then Some(k - 1) else None
      case None => None
  }

  /** Removing the `#slide-` prefix of a written hash leaves the numeral. */
  lemma HashNumeral(i: nat)
    ensures ReplaceFirst(HashFor(i), "#slide-", "") == NatStr(i + 1)
  {
    var h := HashFor(i);
    assert h == "#slide-" + NatStr(i + 1);
    assert h[|"#slide-"|..] == NatStr(i + 1);
  }

  /** The hash written for a slide leads back to that slide. */
  lemma HashRoundTrip(i: nat, n: nat)
    requires i < n
    ensures UrlTarget(HashFor(i), n) == Some(i)
  {
    HashNumeral(i);
    ParseIntNatStr(i + 1);
    assert ParseInt(ReplaceFirst(HashFor(i), "#slide-", "")) == Some(i + 1);
  }

  /** No hash names a slide of an empty deck. */
  lemma NoTargetInEmptyDeck(hash: string)
    ensures UrlTarget(hash, 0) == None
  {
  }

  /** A touch that ends more than the threshold left of its start. */
  predicate SwipeNext(startX: int, endX: int) {
    endX < startX - SwipeThreshold
  }

  /** A touch that ends more than the threshold right of its start. */
  predicate SwipePrev(startX: int, endX: int) {
    endX > startX + SwipeThreshold
  }

  /** A swipe goes one way at most, and a travel of exactly the threshold
      goes nowhere. */
  lemma SwipeDirections(startX: int, endX: int)
    ensures !(SwipeNext(startX, endX) && SwipePrev(startX, endX))
    ensures endX == startX - SwipeThreshold || endX == startX + SwipeThreshold ==>
      !SwipeNext(startX, endX) && !SwipePrev(startX, endX)
    ensures SwipeNext(startX, endX) <==> startX - endX > SwipeThreshold
  {
  }

  /** Where the load leaves the deck when the URL is checked before the
      slides exist (script.js:504-507, 650-651): the check sees an empty
      deck, where no hash names a slide (`NoTargetInEmptyDeck`), and the
      load goes to the first slide whatever the hash. */
  function LandingAsWritten(hash: string, n: nat): (i: int)
    ensures n > 0 ==> i == 0
  {
    Clamp(0, n)
  }

  /** Where a load lands when the hash is read before the first slide is
      shown and honoured once the slides exist. */
  function Landing(hash: string, n: nat): (i: int)
    ensures n > 0 ==> 0 <= i < n
    ensures n == 0 ==> i == -1
  {
    match UrlTarget(hash, n)
    case Some(k) => k
    case None => Clamp(0, n)
  }

  /** A reload keeps the slide the reader was on. */
  lemma ReloadKeepsSlide(i: nat, n: nat)
    requires i < n
    ensures Landing(HashFor(i), n) == i
  {
    HashRoundTrip(i, n);
  }

  /** As written, a reload on the second of three slides returns to the first. */
  lemma ReloadLosesSlideAsWritten()
    ensures LandingAsWritten(HashFor(1), 3) == 0
    ensures Landing(HashFor(1), 3) == 1
  {
    ReloadKeepsSlide(1, 3);
  }
}

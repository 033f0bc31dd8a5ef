/** `scroll_page` (app/main.rb:25-37): scroll the listing page until its
    height stops changing.

    The browser is replaced by the heights it would report: `heights[0]` is
    the measurement taken before the first scroll and `heights[i]` the one
    taken after the `i`-th scroll. The source loop has no cap, so it stops only
    if two consecutive measurements are equal. */
module PageExpander {
  import opened Sequences

  /** The measurement after the `k`-th scroll equals the one before it. */
  predicate SettlesAt(heights: seq<int>, k: nat) {
    1 <= k < |heights| && heights[k] == heights[k - 1]
  }

  /** The least settling point at or after `from`, if the heights hold one. */
  function FirstSettleFrom(heights: seq<int>, from: nat): (k: Option<nat>)
    requires from >= 1
    ensures k.Some? ==> from <= k.value && SettlesAt(heights, k.value)
    ensures k.Some? ==> forall j :: from <= j < k.value ==> !SettlesAt(heights, j)
    ensures k.None? ==> forall j :: from <= j ==> !SettlesAt(heights, j)
    decreases |heights| - from
  {
    if from >= |heights| then None
    else if heights[from] == heights[from - 1] then Some(from)
    else FirstSettleFrom(heights, from + 1)
  }

  /** How many scroll commands the loop issues before it stops, or None when
      no two consecutive heights are equal and the loop would never stop. */
  function ScrollsNeeded(heights: seq<int>): (k: Option<nat>)
    ensures k.None? <==> forall j :: 1 <= j < |heights| ==> heights[j] != heights[j - 1]
    ensures k.Some? ==> SettlesAt(heights, k.value)
    ensures k.Some? ==> forall j :: 1 <= j < k.value ==> !SettlesAt(heights, j)
  {
    var k := FirstSettleFrom(heights, 1);
    assert k.None? ==> forall j :: 1 <= j < |heights| ==> heights[j] != heights[j - 1] by {
      if k.None? {
        forall j | 1 <= j < |heights| ensures heights[j] != heights[j - 1] {
          assert !SettlesAt(heights, j);
        }
      }
    }
    k
  }

  /** The scroll loop. It returns the number of scroll commands issued and
      the number of height measurements read. */
  method ScrollPage(heights: seq<int>) returns (scrolls: nat, measurements: nat)
    requires exists k: nat :: SettlesAt(heights, k)
    ensures ScrollsNeeded(heights) == Some(scrolls)
    ensures heights[scrolls] == heights[scrolls - 1]
    ensures forall j :: 1 <= j < scrolls ==> heights[j] != heights[j - 1]
    ensures measurements == scrolls + 1
  {
    ghost var stop: nat :| SettlesAt(heights, stop);
    var lastHeight := heights[0];
    measurements := 1;
    scrolls := 0;
    while true
      invariant scrolls < stop
      invariant measurements == scrolls + 1
      invariant lastHeight == heights[scrolls]
      invariant forall j :: 1 <= j <= scrolls ==> heights[j] != heights[j - 1]
      decreases stop - scrolls
    {
      scrolls := scrolls + 1;
      var newHeight := heights[scrolls];
      measurements := measurements + 1;
      if newHeight == lastHeight {
        break;
      }
      lastHeight := newHeight;
    }
    ghost var needed := ScrollsNeeded(heights);
    assert needed.Some? && needed.value == scrolls by {
      assert SettlesAt(heights, scrolls);
    }
  }

  /** A page that grows twice and then stays put takes three scrolls and
      four measurements. */
  lemma ThreeScrollsExample()
    ensures ScrollsNeeded([1000, 1800, 2400, 2400]) == Some(3)
  {
    var h := [1000, 1800, 2400, 2400];
    assert !SettlesAt(h, 1) && !SettlesAt(h, 2) && SettlesAt(h, 3);
  }
}

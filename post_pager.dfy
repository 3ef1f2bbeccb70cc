/** The post browser of oti/script.js: a clamped index over the posts,
    prev/next buttons that are disabled at the ends, the arrow keys that
    press them, and the progress readout. */
module PostPager {
  import opened Web

  // ----- the index rules -----

  /** The prev button's click handler on the index. */
  function PrevIndex(i: int): int
  {
    if i > 0 then i - 1 else i
  }

  /** The next button's click handler on the index, for `n` posts. */
  function NextIndex(i: int, n: nat): int
  {
    if i < n - 1 then i + 1 else i
  }

  /** The values `currentPostIndex` can take: a post's position, or 0 when
      there are no posts. */
  predicate InRange(i: int, n: nat)
  {
    0 <= i && (i < n || i == 0)
  }

  /** Both buttons keep the index in range; there is no wrap-around: prev at
      the first post and next at the last leave the index unchanged, and
      anywhere else they move it by exactly one. */
  lemma IndexRules(i: int, n: nat)
    requires InRange(i, n)
    ensures InRange(PrevIndex(i), n) && InRange(NextIndex(i, n), n)
    ensures PrevIndex(i) == (if i == 0 then 0 else i - 1)
    ensures n >= 1 ==> NextIndex(i, n) == (if i == n - 1 then i else i + 1)
    ensures n == 0 ==> NextIndex(i, n) == i
  {
  }

  /** Prev then next from an interior post, or next then prev, returns to
      the post one started from. */
  lemma PrevNextRoundTrip(i: int, n: nat)
    ensures 0 < i < n ==> NextIndex(PrevIndex(i), n) == i
    ensures 0 <= i < n - 1 ==> PrevIndex(NextIndex(i, n)) == i
  {
  }

  // ----- what updatePostVisibility shows -----

  /** The display flags `updatePostVisibility` writes: `block` (true) for the
      post at `i`, `none` for every other. */
  function Visibility(n: nat, i: int): (r: seq<bool>)
    ensures |r| == n
  {
    seq(n, j requires 0 <= j < n => j == i)
  }

  /** How many posts are shown. */
  function ShownCount(flags: seq<bool>): nat
  {
    if flags == [] then 0 else (if flags[0] then 1 else 0) + ShownCount(flags[1..])
  }

  lemma {:induction false} NoneShown(flags: seq<bool>)
    requires forall j :: 0 <= j < |flags| ==> !flags[j]
    ensures ShownCount(flags) == 0
  {
    if flags != [] {
      NoneShown(flags[1..]);
    }
  }

  lemma {:induction false} OneShown(flags: seq<bool>, i: nat)
    requires i < |flags|
    requires forall j :: 0 <= j < |flags| ==> (flags[j] <==> j == i)
    ensures ShownCount(flags) == 1
  {
    if i == 0 {
      NoneShown(flags[1..]);
    } else {
      OneShown(flags[1..], i - 1);
    }
  }

  /** With at least one post and the index in range, exactly one post is
      shown, the one at the index. */
  lemma ExactlyOnePostShown(n: nat, i: int)
    requires 0 <= i < n
    ensures ShownCount(Visibility(n, i)) == 1
    ensures Visibility(n, i)[i]
  {
    OneShown(Visibility(n, i), i);
  }

  // ----- the progress readout -----

  /** `Math.round(((i + 1) / n) * 100)`, computed exactly: rounding half up
      of 100 (i + 1) / n is (200 (i + 1) + n) div 2n. With no posts the
      quotient is Infinity, written None. */
  function Progress(i: int, n: nat): (r: Option<int>)
    ensures r.None? <==> n == 0
    ensures r.Some? ==> 2 * n * r.value - n <= 200 * (i + 1) < 2 * n * r.value + n
  {
    if n == 0 then None else Some((200 * (i + 1) + n) / (2 * n))
  }

  lemma MulCancel(b: int, x: int, y: int)
    requires b > 0 && b * x < b * y
    ensures x < y
  {
  }

  lemma DivLowerBound(a: int, b: int, q: int)
    requires b > 0 && b * q <= a
    ensures q <= a / b
  {
    var r := a / b;
    assert b * q < b * (r + 1);
    MulCancel(b, q, r + 1);
  }

  lemma DivUpperBound(a: int, b: int, q: int)
    requires b > 0 && a < b * (q + 1)
    ensures a / b <= q
  {
    var r := a / b;
    assert b * r < b * (q + 1);
    MulCancel(b, r, q + 1);
  }

  /** For a post in range the readout lies between 0 and 100. It reads 100
      at the last post, and from 200 (n - 1 - i) <= n on, so with more than
      200 posts some earlier posts read 100 as well; it is positive exactly
      when n <= 200 (i + 1), so the first post of more than 200 reads 0. */
  lemma ProgressBounds(i: int, n: nat)
    requires 0 <= i < n
    ensures 0 <= Progress(i, n).value <= 100
    ensures i == n - 1 ==> Progress(i, n).value == 100
    ensures Progress(i, n).value == 100 <==> 200 * (n - 1 - i) <= n
    ensures Progress(i, n).value > 0 <==> n <= 200 * (i + 1)
  {
    var a := 200 * (i + 1) + n;
    var b := 2 * n;
    DivLowerBound(a, b, 0);
    DivUpperBound(a, b, 100);
    if 200 * (n - 1 - i) <= n {
      DivLowerBound(a, b, 100);
    } else {
      DivUpperBound(a, b, 99);
    }
    if n <= 200 * (i + 1) {
      DivLowerBound(a, b, 1);
    } else {
      DivUpperBound(a, b, 0);
    }
  }

  /** The readout never decreases as the index moves forward. */
  lemma ProgressMonotone(i: int, n: nat)
    requires 0 <= i < n - 1
    ensures Progress(i, n).value <= Progress(i + 1, n).value
  {
    var a := 200 * (i + 1) + n;
    var b := 2 * n;
    var q := a / b;
    assert b * q <= a;
    DivLowerBound(a + 200, b, q);
  }

  // ----- the page's state -----

  class Pager {
    /** The display flag of each `.post`: true for `block`. */
    const posts: array<bool>
    var currentPostIndex: int
    var prevDisabled: bool
    var nextDisabled: bool

    /** What `updatePostVisibility` leaves behind, and the index in range. */
    ghost predicate Valid()
      reads this, posts
    {
      InRange(currentPostIndex, posts.Length) &&
      posts[..] == Visibility(posts.Length, currentPostIndex) &&
      prevDisabled == (currentPostIndex == 0) &&
      nextDisabled == (currentPostIndex == posts.Length - 1)
    }

    /** The `DOMContentLoaded` setup: index 0, then `updatePostVisibility()`. */
    constructor (posts: array<bool>)
      modifies posts
      ensures Valid() && this.posts == posts && currentPostIndex == 0
    {
      this.posts := posts;
      currentPostIndex := 0;
      prevDisabled := false;
      nextDisabled := false;
      new;
      UpdatePostVisibility();
    }

    /** `updatePostVisibility()`: one display flag per post, then the two
        buttons' `disabled`. */
    method UpdatePostVisibility()
      modifies this, posts
      ensures currentPostIndex == old(currentPostIndex)
      ensures posts[..] == Visibility(posts.Length, currentPostIndex)
      ensures prevDisabled == (currentPostIndex == 0)
      ensures nextDisabled == (currentPostIndex == posts.Length - 1)
    {
      var j := 0;
      while j < posts.Length
        modifies posts
        invariant 0 <= j <= posts.Length
        invariant forall m :: 0 <= m < j ==> (posts[m] <==> m == currentPostIndex)
      {
        posts[j] := j == currentPostIndex;
        j := j + 1;
      }
      prevDisabled := currentPostIndex == 0;
      nextDisabled := currentPostIndex == posts.Length - 1;
    }

    /** The prev button's click handler. */
    method PrevClick()
      requires Valid()
      modifies this, posts
      ensures Valid()
      ensures currentPostIndex == PrevIndex(old(currentPostIndex))
    {
      if currentPostIndex > 0 {
        currentPostIndex := currentPostIndex - 1;
        UpdatePostVisibility();
      }
    }

    /** The next button's click handler. */
    method NextClick()
      requires Valid()
      modifies this, posts
      ensures Valid()
      ensures currentPostIndex == NextIndex(old(currentPostIndex), posts.Length)
    {
      if currentPostIndex < posts.Length - 1 {
        currentPostIndex := currentPostIndex + 1;
        UpdatePostVisibility();
      }
    }

    /** The document keydown listener: ArrowLeft and ArrowRight press the
        matching button unless it is disabled. As the disabled flags mirror
        the clamp, each key does exactly what its button's click does. */
    method KeyDown(key: Key)
      requires Valid()
      modifies this, posts
      ensures Valid()
      ensures currentPostIndex ==
        if key == ArrowLeft then PrevIndex(old(currentPostIndex))
        else if key == ArrowRight then NextIndex(old(currentPostIndex), posts.Length)
        else old(currentPostIndex)
    {
      if key == ArrowLeft && !prevDisabled {
        PrevClick();
      } else if key == ArrowRight && !nextDisabled {
        NextClick();
      }
    }

    /** `updateProgressIndicator()`'s percentage. */
    function ProgressReadout(): Option<int>
      reads this, posts
    {
      Progress(currentPostIndex, posts.Length)
    }
  }
}

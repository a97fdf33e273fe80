/**
 * The autocomplete widget of the search box. On every input event it splits the index into
 * records whose artist or album starts with the query and records that only contain it,
 * shows the first ten of the two groups in that order, and then lets the arrow keys move a
 * highlight through the list and Enter open the highlighted record.
 */
module Autocomplete {
  import opened Wrappers
  import opened Text
  import opened Seqs
  import opened Reviews

  /** At most this many suggestions are shown. */
  const SuggestionLimit: int := 10

  /**
   * `input.value.trim().toLowerCase()`: no white space at either end and no ASCII capital
   * letter; empty exactly when the input is all white space.
   */
  function NormalizeQuery(value: string): (v: string)
    ensures |v| <= |value|
    ensures v != [] ==> !IsJsSpace(v[0]) && !IsJsSpace(v[|v| - 1])
    ensures forall i :: 0 <= i < |v| ==> !IsAsciiUpper(v[i])
    ensures v == [] <==> forall i :: 0 <= i < |value| ==> IsJsSpace(value[i])
  {
    var t := Trim(value, IsJsSpace);
    TrimEmpty(value, IsJsSpace);
    LowerKeepsSpace(t);
    ToLower(t)
  }

  /** The artist or the album starts with `v` (case ignored on the record's side). */
  predicate IsPrefixMatch(r: Review, v: string) {
    StartsWith(ToLower(r.artist), v) || StartsWith(ToLower(r.album), v)
  }

  /** Not a prefix match, but the artist or the album contains `v`. */
  predicate IsSubstringMatch(r: Review, v: string) {
    !IsPrefixMatch(r, v) && (Contains(ToLower(r.artist), v) || Contains(ToLower(r.album), v))
  }

  function PrefixFilter(v: string): Review -> bool {
    r => IsPrefixMatch(r, v)
  }

  function SubstringFilter(v: string): Review -> bool {
    r => IsSubstringMatch(r, v)
  }

  /** The prefix matches, in index order. */
  function PrefixBucket(rs: seq<Review>, v: string): seq<Review> {
    Filter(rs, PrefixFilter(v))
  }

  /** The substring-only matches, in index order. */
  function SubstringBucket(rs: seq<Review>, v: string): seq<Review> {
    Filter(rs, SubstringFilter(v))
  }

  /** `[...prefixMatches, ...includesMatches].slice(0, 10)`. */
  function Suggestions(rs: seq<Review>, v: string): (items: seq<Review>)
    ensures |items| <= SuggestionLimit
    ensures forall r :: r in items ==> r in rs
  {
    JsSlice(PrefixBucket(rs, v) + SubstringBucket(rs, v), SuggestionLimit)
  }

  /** The prefix bucket holds prefix matches only, the substring bucket the rest, and no record is in both. */
  lemma BucketsSound(rs: seq<Review>, v: string)
    ensures forall r :: r in PrefixBucket(rs, v) ==> r in rs && IsPrefixMatch(r, v)
    ensures forall r :: r in SubstringBucket(rs, v) ==>
      r in rs && !IsPrefixMatch(r, v) && (Contains(ToLower(r.artist), v) || Contains(ToLower(r.album), v))
    ensures forall r :: r in PrefixBucket(rs, v) ==> r !in SubstringBucket(rs, v)
  {
  }

  /** Every record that contains the query lands in one of the two buckets. */
  lemma BucketsComplete(rs: seq<Review>, v: string, i: nat)
    requires i < |rs|
    requires Contains(ToLower(rs[i].artist), v) || Contains(ToLower(rs[i].album), v)
    ensures rs[i] in PrefixBucket(rs, v) || rs[i] in SubstringBucket(rs, v)
  {
    if IsPrefixMatch(rs[i], v) {
      FilterComplete(rs, PrefixFilter(v), i);
    } else {
      FilterComplete(rs, SubstringFilter(v), i);
    }
  }

  /** Both buckets keep the order of the index. */
  lemma BucketsKeepOrder(rs: seq<Review>, v: string)
    ensures SubsequenceOf(PrefixBucket(rs, v), rs)
    ensures SubsequenceOf(SubstringBucket(rs, v), rs)
  {
    FilterIsSubsequence(rs, PrefixFilter(v));
    FilterIsSubsequence(rs, SubstringFilter(v));
  }

  /**
   * The suggestion list is the first prefix matches followed by the first substring matches:
   * the prefix bucket fills the list up to ten, and substring matches fill the rest.
   */
  lemma SuggestionsLayout(rs: seq<Review>, v: string)
    ensures var p, s, items := PrefixBucket(rs, v), SubstringBucket(rs, v), Suggestions(rs, v);
      var n := if |p| < SuggestionLimit then |p| else SuggestionLimit;
      && |items| == (if |p| + |s| < SuggestionLimit then |p| + |s| else SuggestionLimit)
      && items[..n] == p[..n]
      && items[n..] == s[..|items| - n]
  {
    var p, s := PrefixBucket(rs, v), SubstringBucket(rs, v);
    var items := Suggestions(rs, v);
    assert items == (p + s)[..|items|];
  }

  /** No substring match is listed before a prefix match. */
  lemma SuggestionsTiered(rs: seq<Review>, v: string, i: nat, j: nat)
    requires i < j < |Suggestions(rs, v)|
    requires IsPrefixMatch(Suggestions(rs, v)[j], v)
    ensures IsPrefixMatch(Suggestions(rs, v)[i], v)
  {
    var p, s, items := PrefixBucket(rs, v), SubstringBucket(rs, v), Suggestions(rs, v);
    BucketsSound(rs, v);
    SuggestionsLayout(rs, v);
    assert items == (p + s)[..|items|];
    assert items[i] == p[i] && items[i] in p;
  }

  /**
   * The loop of the input handler: one pass over the index that puts each record in the
   * prefix bucket, the substring bucket, or neither.
   */
  method SplitBuckets(rs: seq<Review>, v: string) returns (prefixMatches: seq<Review>, includesMatches: seq<Review>)
    ensures prefixMatches == PrefixBucket(rs, v)
    ensures includesMatches == SubstringBucket(rs, v)
  {
    prefixMatches, includesMatches := [], [];
    var i := 0;
    while i < |rs|
      invariant 0 <= i <= |rs|
      invariant prefixMatches == Filter(rs[..i], PrefixFilter(v))
      invariant includesMatches == Filter(rs[..i], SubstringFilter(v))
    {
      var r := rs[i];
      var artist := ToLower(r.artist);
      var album := ToLower(r.album);
      FilterStep(rs, i, PrefixFilter(v));
      FilterStep(rs, i, SubstringFilter(v));
      assert PrefixFilter(v)(r) == (StartsWith(artist, v) || StartsWith(album, v));
      assert SubstringFilter(v)(r) ==
        (!PrefixFilter(v)(r) && (Contains(artist, v) || Contains(album, v)));
      if StartsWith(artist, v) || StartsWith(album, v) {
        prefixMatches := prefixMatches + [r];
      } else if Contains(artist, v) || Contains(album, v) {
        includesMatches := includesMatches + [r];
      }
      i := i + 1;
    }
    assert rs[..i] == rs;
  }

  // ---------------------------------------------------------------- key handling

  datatype Key = ArrowDown | ArrowUp | Enter | OtherKey

  /** `Math.trunc(a / n)`: the quotient rounded toward zero. */
  function JsQuot(a: int, n: int): int
    requires n > 0
  {
    if a >= 0 then a / n else -((-a) / n)
  }

  /**
   * JavaScript's `%`: the remainder of the division rounded toward zero, so it takes the sign
   * of the dividend.
   */
  function JsRem(a: int, n: int): (r: int)
    requires n > 0
    ensures a == JsQuot(a, n) * n + r
    ensures a >= 0 ==> 0 <= r < n
    ensures a < 0 ==> -n < r <= 0
  {
    if a >= 0 then a % n
    else
      assert -a == ((-a) / n) * n + (-a) % n;
      -((-a) % n)
  }

  /** Below twice the divisor, the remainder is at most one subtraction away. */
  lemma ModBelowTwice(x: int, n: int)
    requires n > 0 && 0 <= x < 2 * n
    ensures x % n == if x < n then x else x - n
  {
    var q, r := x / n, x % n;
    assert x == q * n + r && 0 <= r < n;
    if x < n {
      assert q * n < n;
      assert q == 0;
    } else {
      assert q * n > 0;
      assert q * n < 2 * n;
      assert q == 1;
    }
  }

  /**
   * The highlight after `key`, as the keydown handler computes it: `(i + 1) % n` for
   * ArrowDown and `(i - 1 + n) % n` for ArrowUp. From any highlight or from none (-1), the
   * arrow keys land on a suggestion.
   */
  function NextActive(i: int, key: Key, n: nat): (j: int)
    requires n > 0
    ensures -1 <= i < n && (key == ArrowDown || key == ArrowUp) ==> 0 <= j < n
    ensures key != ArrowDown && key != ArrowUp ==> j == i
  {
    match key
    case ArrowDown => JsRem(i + 1, n)
    case ArrowUp => JsRem(i - 1 + n, n)
    case _ => i
  }

  /** With nothing highlighted and two or more suggestions, ArrowUp lands on the second-to-last one. */
  lemma ArrowUpFromNone(n: nat)
    requires n >= 2
    ensures NextActive(-1, ArrowUp, n) == n - 2
  {
    ModBelowTwice(n - 2, n);
  }

  /** ArrowDown then ArrowUp, or ArrowUp then ArrowDown, returns to the highlighted suggestion. */
  lemma ArrowKeysInverse(i: int, n: nat)
    requires n > 0 && 0 <= i < n
    ensures NextActive(NextActive(i, ArrowDown, n), ArrowUp, n) == i
    ensures NextActive(NextActive(i, ArrowUp, n), ArrowDown, n) == i
  {
    ModBelowTwice(i + 1, n);
    ModBelowTwice(i - 1 + n, n);
    if i + 1 < n {
      ModBelowTwice(i + n, n);
    } else {
      ModBelowTwice(n - 1, n);
    }
    if i > 0 {
      ModBelowTwice(i, n);
    } else {
      ModBelowTwice(n, n);
    }
  }

  /** The wrap-around: down from the last is the first, up from the first is the last, and down from none is the first. */
  lemma ArrowKeysWrap(n: nat)
    requires n > 0
    ensures NextActive(n - 1, ArrowDown, n) == 0
    ensures NextActive(0, ArrowUp, n) == n - 1
    ensures NextActive(-1, ArrowDown, n) == 0
  {
    ModBelowTwice(n, n);
    ModBelowTwice(n - 1, n);
    ModBelowTwice(0, n);
  }

  /**
   * The step as evidently intended: the same as `NextActive` while a suggestion is
   * highlighted, and from none ArrowUp goes to the last suggestion, mirroring ArrowDown.
   */
  function NextActiveCorrected(i: int, key: Key, n: nat): (j: int)
    requires n > 0 && -1 <= i < n
    ensures key == ArrowDown || key == ArrowUp ==> 0 <= j < n
    ensures key != ArrowDown && key != ArrowUp ==> j == i
  {
    match key
    case ArrowUp => if i < 0 then n - 1 else NextActive(i, key, n)
    case _ => NextActive(i, key, n)
  }

  /** The corrected step differs from the handler's only at ArrowUp from no highlight. */
  lemma CorrectedAgrees(i: int, key: Key, n: nat)
    requires n > 0 && -1 <= i < n
    ensures NextActiveCorrected(i, key, n) == NextActive(i, key, n) <==> (i >= 0 || key != ArrowUp || n == 1)
  {
    if i < 0 && key == ArrowUp && n >= 2 {
      ArrowUpFromNone(n);
    } else if i < 0 && key == ArrowUp {
      ModBelowTwice(n - 2 + 2, n);
    }
  }

  /** With the correction, both arrow keys wrap from no highlight to the nearest end of the list. */
  lemma CorrectedFromNone(n: nat)
    requires n > 0
    ensures NextActiveCorrected(-1, ArrowDown, n) == 0
    ensures NextActiveCorrected(-1, ArrowUp, n) == n - 1
  {
    ArrowKeysWrap(n);
  }

  // ---------------------------------------------------------------- the widget

  /**
   * The closure state of `initAutocomplete`: the index it searches, the highlighted
   * position (-1 for none), the records behind the current suggestion elements, and whether
   * the suggestion container is shown.
   */
  class Controller {
    var reviews: seq<Review>
    var activeIndex: int
    var currentItems: seq<Review>
    var visible: bool

    /** The highlight is "none" or one of the current suggestions, which are records of the index. */
    ghost predicate Valid()
      reads this
    {
      && -1 <= activeIndex < |currentItems|
      && forall r :: r in currentItems ==> r in reviews
    }

    /**
     * The widget at start: no highlight and no items. The script never sets the container's
     * display at start (the stylesheet decides); it is modelled as hidden, which shows the
     * same thing because the container starts empty.
     */
    constructor (index: seq<Review>)
      ensures Valid()
      ensures reviews == index && activeIndex == -1 && currentItems == [] && !visible
    {
      reviews := index;
      activeIndex := -1;
      currentItems := [];
      visible := false;
    }

    /**
     * The input handler. The highlight is reset; an empty query hides the list (and, as in
     * the script, leaves `currentItems` as they were); any other query rebuilds the list
     * from the two buckets and shows it when it is not empty.
     */
    method OnInput(value: string)
      requires Valid()
      modifies this
      ensures Valid()
      ensures reviews == old(reviews) && activeIndex == -1
      ensures NormalizeQuery(value) == [] ==> !visible && currentItems == old(currentItems)
      ensures NormalizeQuery(value) != [] ==>
        currentItems == Suggestions(reviews, NormalizeQuery(value)) && visible == (currentItems != [])
    {
      var v := ToLower(Trim(value, IsJsSpace));
      activeIndex := -1;
      if v == [] {
        visible := false;
        return;
      }
      var prefixMatches, includesMatches := SplitBuckets(reviews, v);
      var matches := JsSlice(prefixMatches + includesMatches, SuggestionLimit);
      currentItems := matches;
      visible := |matches| > 0;
    }

    /**
     * The keydown handler: nothing happens while there are no suggestions; the arrow keys move
     * the highlight by `NextActive`; Enter on a highlighted suggestion navigates to that
     * record's id, which is returned, and the detail page's lookup of that id finds it.
     */
    method OnKey(key: Key) returns (nav: Option<int>)
      requires Valid()
      modifies this`activeIndex
      ensures Valid()
      ensures currentItems == [] ==> activeIndex == old(activeIndex) && nav == None
      ensures currentItems != [] ==> activeIndex == NextActive(old(activeIndex), key, |currentItems|)
      ensures nav.Some? <==> currentItems != [] && key == Enter && activeIndex >= 0
      ensures nav.Some? ==> nav.value == currentItems[activeIndex].id
      ensures nav.Some? ==> GetReviewById(reviews, nav.value).Some? && GetReviewById(reviews, nav.value).value.id == nav.value
    {
      nav := None;
      if |currentItems| == 0 {
        return;
      }
      var n := |currentItems|;
      if key == ArrowDown {
        activeIndex := JsRem(activeIndex + 1, n);
      }
      if key == ArrowUp {
        activeIndex := JsRem(activeIndex - 1 + n, n);
      }
      if key == Enter && activeIndex >= 0 {
        var r := currentItems[activeIndex];
        GetReviewByIdFindsMember(reviews, r);
        nav := Some(r.id);
        return;
      }
    }

    /** A click on a shown suggestion navigates to its record's id, which the detail page's lookup finds. */
    method OnItemClick(i: nat) returns (nav: int)
      requires Valid() && visible && i < |currentItems|
      ensures nav == currentItems[i].id
      ensures GetReviewById(reviews, nav).Some? && GetReviewById(reviews, nav).value.id == nav
    {
      var r := currentItems[i];
      GetReviewByIdFindsMember(reviews, r);
      nav := r.id;
    }

    /** A click outside the input and the container only hides the list. */
    method OnOutsideClick()
      requires Valid()
      modifies this`visible
      ensures Valid() && !visible
    {
      visible := false;
    }
  }

  /** Hiding the list does not stop the keys: after an outside click, ArrowDown and Enter still open a suggestion. */
  method HiddenListStillNavigates(index: seq<Review>, query: string)
    requires NormalizeQuery(query) != [] && Suggestions(index, NormalizeQuery(query)) != []
  {
    var items := Suggestions(index, NormalizeQuery(query));
    var widget := new Controller(index);
    widget.OnInput(query);
    assert widget.currentItems == items;
    widget.OnOutsideClick();
    assert !widget.visible;
    ArrowKeysWrap(|items|);
    var _ := widget.OnKey(ArrowDown);
    assert widget.activeIndex == 0;
    var nav := widget.OnKey(Enter);
    assert nav == Some(items[0].id);
  }
}

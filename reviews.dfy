/**
 * The review index of the public site: an ordered sequence of review records, and the
 * three queries the pages run on it — lookup by id, the record after a given one, and
 * case-insensitive search on artist and album.
 */
module Reviews {
  import opened Wrappers
  import opened Text
  import opened Seqs

  /** One entry of `reviews.json`. */
  datatype Review = Review(
    id: int,
    artist: string,
    album: string,
    releaseDate: string,
    cover: string,
    review: string)

  /** `findIndex(r => r.id === id)`: the position of the first record with that id, or -1. */
  function FindIndex(rs: seq<Review>, id: int): (i: int)
    ensures -1 <= i < |rs|
    ensures i == -1 <==> forall k :: 0 <= k < |rs| ==> rs[k].id != id
    ensures 0 <= i ==> rs[i].id == id && forall k :: 0 <= k < i ==> rs[k].id != id
  {
    if rs == [] then -1
    else if rs[0].id == id then 0
    else
      var j := FindIndex(rs[1..], id);
      if j == -1 then -1 else j + 1
  }

  /** `getReviewById`: the first record whose id is `id`, or none when no record has it. */
  function GetReviewById(rs: seq<Review>, id: int): (r: Option<Review>)
    ensures r.None? <==> forall k :: 0 <= k < |rs| ==> rs[k].id != id
    ensures r.Some? ==>
      exists k :: 0 <= k < |rs| && rs[k] == r.value && r.value.id == id &&
        forall j :: 0 <= j < k ==> rs[j].id != id
  {
    var i := FindIndex(rs, id);
    if i < 0 then None else Some(rs[i])
  }

  /**
   * `getNextReview`: the record after the first record with id `id` (none when that record is
   * the last), and the first record of the index when no record has that id.
   */
  function GetNextReview(rs: seq<Review>, id: int): (r: Option<Review>)
    ensures (forall k :: 0 <= k < |rs| ==> rs[k].id != id) ==>
      r == if rs == [] then None else Some(rs[0])
    ensures forall k :: 0 <= k < |rs| && rs[k].id == id && (forall j :: 0 <= j < k ==> rs[j].id != id) ==>
      r == if k + 1 < |rs| then Some(rs[k + 1]) else None
  {
    var i := FindIndex(rs, id);
    if i + 1 < |rs| then Some(rs[i + 1]) else None
  }

  /** Looking up the id of any record of the index finds a record with that id. */
  lemma GetReviewByIdFindsMember(rs: seq<Review>, r: Review)
    requires r in rs
    ensures GetReviewById(rs, r.id).Some? && GetReviewById(rs, r.id).value.id == r.id
  {
    var k :| 0 <= k < |rs| && rs[k] == r;
  }

  /** The condition of `searchReviews`, for an already lower-cased query `q`. */
  predicate MatchesQuery(r: Review, q: string) {
    Contains(ToLower(r.artist), q) || Contains(ToLower(r.album), q)
  }

  function QueryFilter(q: string): Review -> bool {
    r => MatchesQuery(r, q)
  }

  /** Every record whose artist or album contains `q`, ignoring ASCII case, in index order. */
  function AllMatches(rs: seq<Review>, q: string): seq<Review> {
    Filter(rs, QueryFilter(ToLower(q)))
  }

  /**
   * `searchReviews(q, limit)`: the first `limit` records (in index order) whose artist or album
   * contains `q`, ignoring ASCII case. A negative `limit` drops that many matches from the end,
   * as `slice` does. (A caller that gives no limit gets 30.)
   */
  function SearchReviews(rs: seq<Review>, q: string, limit: int): (found: seq<Review>)
    ensures found <= AllMatches(rs, q)
    ensures 0 <= limit ==> |found| == if limit < |AllMatches(rs, q)| then limit else |AllMatches(rs, q)|
    ensures forall r :: r in found ==> r in rs && MatchesQuery(r, ToLower(q))
  {
    JsSlice(AllMatches(rs, q), limit)
  }

  /** Search results keep the order of the index. */
  lemma SearchKeepsOrder(rs: seq<Review>, q: string, limit: int)
    ensures SubsequenceOf(SearchReviews(rs, q, limit), rs)
  {
    FilterIsSubsequence(rs, QueryFilter(ToLower(q)));
    PrefixOfSubsequence(AllMatches(rs, q), SearchReviews(rs, q, limit), rs);
  }

  /** When the limit is not reached, every matching record is among the results. */
  lemma SearchComplete(rs: seq<Review>, q: string, limit: int, i: nat)
    requires i < |rs| && MatchesQuery(rs[i], ToLower(q))
    requires |SearchReviews(rs, q, limit)| < limit
    ensures rs[i] in SearchReviews(rs, q, limit)
  {
    FilterComplete(rs, QueryFilter(ToLower(q)), i);
  }
}

/**
 * The local admin server: the id given to a new review, the extension its cover is stored
 * under, and the request that validates a submitted review, stores its cover and appends
 * it to the index.
 */
module Server {
  import opened Wrappers
  import opened Text

  /** A record of `reviews.json` as the server reads it: the id may be missing. */
  datatype Entry = Entry(
    id: Option<int>,
    artist: string,
    album: string,
    releaseDate: string,
    cover: string,
    review: string)

  /** `int(r.get("id", 0))`: a missing id counts as 0. */
  function IdOf(e: Entry): int {
    e.id.GetOr(0)
  }

  /** The largest id of a non-empty list. */
  function MaxId(es: seq<Entry>): (m: int)
    requires es != []
    ensures forall e :: e in es ==> IdOf(e) <= m
    ensures exists e :: e in es && IdOf(e) == m
  {
    if |es| == 1 then IdOf(es[0])
    else
      var rest := MaxId(es[1..]);
      assert es[1..][0] in es;
      if IdOf(es[0]) >= rest then IdOf(es[0]) else rest
  }

  /** `next_id`: one more than the largest id, or 1 for an empty list. */
  function NextId(es: seq<Entry>): (n: int)
    ensures forall e :: e in es ==> IdOf(e) < n
    ensures es == [] ==> n == 1
    ensures es != [] ==> exists e :: e in es && n == IdOf(e) + 1
  {
    if es == [] then 1 else MaxId(es) + 1
  }

  /** After appending an entry that carries the next id, the next id is one more. */
  lemma NextIdAfterAppend(es: seq<Entry>, e: Entry)
    requires IdOf(e) == NextId(es)
    ensures NextId(es + [e]) == IdOf(e) + 1
  {
    var es' := es + [e];
    assert e in es';
    assert forall x :: x in es' ==> x in es || x == e;
    var m := MaxId(es');
    assert IdOf(e) <= m;
  }

  /** `ext.isalnum()` for ASCII: non-empty and letters and digits only. */
  predicate IsAlnumWord(s: string) {
    s != [] && forall i :: 0 <= i < |s| ==> IsAsciiAlnum(s[i])
  }

  /**
   * `safe_ext`: the lower-cased text after the last `.` of the filename when it is a
   * non-empty run of letters and digits, and `jpg` otherwise (also without a `.`).
   */
  function SafeExt(filename: string): (ext: string)
    ensures '.' !in filename ==> ext == "jpg"
    ensures '.' in filename && IsAlnumWord(ToLower(AfterLast(filename, '.'))) ==>
      ext == ToLower(AfterLast(filename, '.'))
    ensures '.' in filename && !IsAlnumWord(ToLower(AfterLast(filename, '.'))) ==> ext == "jpg"
    ensures IsAlnumWord(ext) && forall i :: 0 <= i < |ext| ==> !IsAsciiUpper(ext[i])
  {
    if filename == [] || '.' !in filename then "jpg"
    else
      var ext := ToLower(AfterLast(filename, '.'));
      if !IsAlnumWord(ext) then "jpg" else ext
  }

  /**
   * `f"{new_id}.{ext}"`: the file name of a cover inside the covers directory. Its text after
   * the last `.` is the sanitised extension.
   */
  function CoverFileName(id: int, filename: string): (name: string)
    ensures '.' in name && AfterLast(name, '.') == SafeExt(filename)
  {
    var ext := SafeExt(filename);
    assert '.' !in ext by {
      assert !IsAsciiAlnum('.');
    }
    AfterLastJoin(IntToString(id), '.', ext);
    IntToString(id) + "." + ext
  }

  /** The stored name sanitises to the extension it was given: storing a cover keeps its extension. */
  lemma CoverNameKeepsExtension(id: int, filename: string)
    ensures SafeExt(CoverFileName(id, filename)) == SafeExt(filename)
  {
    var e := SafeExt(filename);
    assert ToLower(e) == e;
  }

  /** Two different ids never give the same cover file name, whatever the uploaded names. */
  lemma CoverFileNamesDistinct(a: int, b: int, f: string, g: string)
    requires a != b
    ensures CoverFileName(a, f) != CoverFileName(b, g)
  {
    if CoverFileName(a, f) == CoverFileName(b, g) {
      assert IntToString(a) + ['.'] + SafeExt(f) == IntToString(b) + ['.'] + SafeExt(g);
      SplitAtFirst(IntToString(a), SafeExt(f), IntToString(b), SafeExt(g), '.');
      IntToStringInjective(a, b);
    }
  }

  const RequiredFieldsError: string := "Artist, album, and review are required."
  const CoverRequiredError: string := "Cover file is required."

  /** The form fields of the request; a field that was not sent is `None`. */
  datatype Form = Form(
    artist: Option<string>,
    album: Option<string>,
    releaseDate: Option<string>,
    review: Option<string>)

  /** An uploaded cover: the name the browser gave it and its bytes. */
  datatype Upload = Upload(filename: string, data: seq<bv8>)

  /** The answer of `POST /api/reviews`: 200 with the new id and cover path, or 400 with a message. */
  datatype Response = Created(id: int, cover: string) | BadRequest(error: string)

  /** `(form.get(name) or "").strip()`. */
  function Field(value: Option<string>): string {
    Trim(value.GetOr(""), IsPySpace)
  }

  /** The validation of `api_reviews`: the first message that applies, or none. */
  function Rejection(form: Form, cover: Option<Upload>): (error: Option<string>)
    ensures error == None <==>
      Field(form.artist) != [] && Field(form.album) != [] && Field(form.review) != [] && cover.Some?
    ensures (Field(form.artist) == [] || Field(form.album) == [] || Field(form.review) == []) ==>
      error == Some(RequiredFieldsError)
    ensures Field(form.artist) != [] && Field(form.album) != [] && Field(form.review) != [] && cover.None? ==>
      error == Some(CoverRequiredError)
  {
    if Field(form.artist) == [] || Field(form.album) == [] || Field(form.review) == [] then
      Some(RequiredFieldsError)
    else if cover.None? then Some(CoverRequiredError)
    else None
  }

  /** The entry `api_reviews` appends for a valid request. */
  function NewEntry(id: int, form: Form, upload: Upload): (e: Entry)
    ensures IdOf(e) == id
  {
    Entry(Some(id), Field(form.artist), Field(form.album), Field(form.releaseDate),
          "covers/" + CoverFileName(id, upload.filename), Field(form.review))
  }

  /** Ids strictly increase along the list (so no two records share one). */
  ghost predicate IdsIncreasing(es: seq<Entry>) {
    forall i, j :: 0 <= i < j < |es| ==> IdOf(es[i]) < IdOf(es[j])
  }

  /** Appending an entry with the next id keeps the ids increasing. */
  lemma AppendNextIdKeepsIncreasing(es: seq<Entry>, e: Entry)
    requires IdsIncreasing(es) && IdOf(e) == NextId(es)
    ensures IdsIncreasing(es + [e])
  {
    var es' := es + [e];
    forall i, j | 0 <= i < j < |es'|
      ensures IdOf(es'[i]) < IdOf(es'[j])
    {
      if j == |es| {
        assert es'[i] in es;
      }
    }
  }

  /**
   * The review index file (`reviews.json`) and the covers directory, with the two API
   * routes that use them. File reading and writing themselves are not modelled: the
   * fields hold what the files contain.
   */
  class ReviewStore {
    var reviews: seq<Entry>
    var covers: map<string, seq<bv8>>

    constructor (index: seq<Entry>, files: map<string, seq<bv8>>)
      ensures reviews == index && covers == files
    {
      reviews := index;
      covers := files;
    }

    /** `GET /api/next`: how many reviews there are and the id the next one will get. */
    method Next() returns (count: nat, nextId: int)
      ensures count == |reviews|
      ensures forall e :: e in reviews ==> IdOf(e) < nextId
      ensures reviews == [] ==> nextId == 1
      ensures reviews != [] ==> exists e :: e in reviews && nextId == IdOf(e) + 1
    {
      count := |reviews|;
      nextId := NextId(reviews);
    }

    /**
     * `POST /api/reviews`. A request missing a trimmed artist, album or review, or a cover,
     * is rejected and changes nothing. Otherwise the cover is saved as `<id>.<ext>` and an
     * entry with the next id is appended after all earlier records; the response repeats
     * its id and cover path.
     */
    method PostReview(form: Form, upload: Option<Upload>) returns (resp: Response)
      modifies this
      ensures resp.BadRequest? <==> Rejection(form, upload).Some?
      ensures resp.BadRequest? ==>
        resp.error == Rejection(form, upload).value &&
        reviews == old(reviews) && covers == old(covers)
      ensures resp.Created? ==>
        && upload.Some?
        && resp.id == NextId(old(reviews))
        && reviews == old(reviews) + [NewEntry(resp.id, form, upload.value)]
        && resp.cover == reviews[|reviews| - 1].cover
        && covers == old(covers)[CoverFileName(resp.id, upload.value.filename) := upload.value.data]
      ensures IdsIncreasing(old(reviews)) ==> IdsIncreasing(reviews)
    {
      var rejection := Rejection(form, upload);
      if rejection.Some? {
        return BadRequest(rejection.value);
      }
      resp := Accept(form, upload.value);
    }

    /**
     * The second half of `POST /api/reviews`, for a request that passed validation: save the
     * cover as `<id>.<ext>` and append the entry with the next id.
     */
    method Accept(form: Form, cover: Upload) returns (resp: Response)
      modifies this
      ensures resp.Created?
      ensures resp.id == NextId(old(reviews))
      ensures reviews == old(reviews) + [NewEntry(resp.id, form, cover)]
      ensures resp.cover == reviews[|reviews| - 1].cover
      ensures covers == old(covers)[CoverFileName(resp.id, cover.filename) := cover.data]
      ensures IdsIncreasing(old(reviews)) ==> IdsIncreasing(reviews)
    {
      var newId := NextId(reviews);
      var coverFilename := CoverFileName(newId, cover.filename);
      covers := covers[coverFilename := cover.data];
      var entry := NewEntry(newId, form, cover);
      if IdsIncreasing(reviews) {
        AppendNextIdKeepsIncreasing(reviews, entry);
      }
      reviews := reviews + [entry];
      resp := Created(newId, entry.cover);
    }
  }
}

/**
 * The admin page: the cover path it previews for the chosen file, and the page state
 * (`nextId`, `count`) that loading the index and saving a review advance.
 */
module Admin {
  import opened Wrappers
  import opened Text
  import Server

  /**
   * `buildCoverUrl(nextId, fileName)`: `covers/<nextId>.<ext>`, where `ext` is the lower-cased
   * text after the last `.` (possibly empty, and not checked further), or `jpg` when the name
   * has no `.`.
   */
  function BuildCoverUrl(nextId: int, fileName: string): (url: string)
    ensures '.' !in fileName ==> url == "covers/" + IntToString(nextId) + ".jpg"
    ensures '.' in fileName ==> url == "covers/" + IntToString(nextId) + "." + ToLower(AfterLast(fileName, '.'))
  {
    "covers/" + IntToString(nextId) + "." + CoverExtension(fileName)
  }

  /**
   * The extension `buildCoverUrl` puts in the path: `jpg` for a name without `.`, otherwise
   * the lower-cased text after the last `.`. It never holds a `.` itself.
   */
  function CoverExtension(fileName: string): (ext: string)
    ensures '.' !in ext
    ensures '.' !in fileName ==> ext == "jpg"
    ensures '.' in fileName ==>
      |ext| < |fileName| && fileName[|fileName| - |ext| - 1] == '.' &&
      ext == ToLower(fileName[|fileName| - |ext|..])
  {
    if fileName != [] && '.' in fileName then ToLower(AfterLast(fileName, '.')) else "jpg"
  }

  /**
   * The previewed path is the one the server stores exactly when the file name has no `.`
   * or its extension is a non-empty run of ASCII letters and digits; otherwise the server
   * falls back to `jpg` and the preview shows something else.
   */
  lemma CoverUrlAgreesWithServer(n: int, f: string)
    ensures BuildCoverUrl(n, f) == "covers/" + Server.CoverFileName(n, f) <==>
      ('.' !in f || Server.IsAlnumWord(ToLower(AfterLast(f, '.'))))
  {
    var head := "covers/" + IntToString(n) + ".";
    StoredCoverPath(n, f);
    CancelPrefix(head, CoverExtension(f), Server.SafeExt(f));
    ExtensionsAgree(f);
  }

  /** The path the server records, split like the previewed one. */
  lemma StoredCoverPath(n: int, f: string)
    ensures "covers/" + Server.CoverFileName(n, f) == "covers/" + IntToString(n) + "." + Server.SafeExt(f)
  {
    var d, e := IntToString(n), Server.SafeExt(f);
    assert Server.CoverFileName(n, f) == d + "." + e;
    assert "covers/" + (d + "." + e) == "covers/" + d + "." + e;
  }

  lemma ExtensionsAgree(f: string)
    ensures CoverExtension(f) == Server.SafeExt(f) <==>
      ('.' !in f || Server.IsAlnumWord(ToLower(AfterLast(f, '.'))))
  {
    assert Server.IsAlnumWord("jpg");
  }

  lemma CancelPrefix(head: string, a: string, b: string)
    ensures head + a == head + b <==> a == b
  {
    if head + a == head + b {
      assert a == (head + a)[|head|..];
    }
  }

  /** The value `updateCoverPreview` writes: empty while no file is chosen or `nextId` is 0. */
  function CoverPreview(fileName: Option<string>, nextId: int): (preview: string)
    ensures preview == [] <==> fileName.None? || nextId == 0
    ensures preview != [] ==> preview == BuildCoverUrl(nextId, fileName.value)
  {
    if fileName.None? || nextId == 0 then [] else BuildCoverUrl(nextId, fileName.value)
  }

  /** `(data.id || state.nextId) + 1`: the id the server returned (unless missing or 0), plus one. */
  function NextIdAfterSave(current: int, returned: Option<int>): (n: int)
    ensures returned.Some? && returned.value != 0 ==> n == returned.value + 1
    ensures returned.None? || returned == Some(0) ==> n == current + 1
  {
    (if returned.Some? && returned.value != 0 then returned.value else current) + 1
  }

  /**
   * When the page's `nextId` matched the server's and the server appended an entry with that
   * id, the page's advance lands on the server's next id again.
   */
  lemma SaveKeepsPageInStep(es: seq<Server.Entry>, e: Server.Entry)
    requires e.id == Some(Server.NextId(es))
    ensures NextIdAfterSave(Server.NextId(es), e.id) == Server.NextId(es + [e])
  {
    Server.NextIdAfterAppend(es, e);
  }

  /** What `/api/next` answered. */
  datatype NextInfo = NextInfo(count: int, nextId: int)

  /** How a save request ended: failed (network, HTTP error), or succeeded with the answer's `id`, if any. */
  datatype SaveResult = SaveFailed | Saved(id: Option<int>)

  /**
   * The module-level `state` of the admin page, with the name of the chosen cover file and the
   * cover-path field that `updateCoverPreview` keeps in line with them.
   */
  class AdminPage {
    var nextId: int
    var count: int
    var coverFile: Option<string>
    var coverPreview: string

    ghost predicate Valid()
      reads this
    {
      coverPreview == CoverPreview(coverFile, nextId)
    }

    constructor ()
      ensures Valid()
      ensures nextId == 1 && count == 0 && coverFile == None && coverPreview == []
    {
      nextId, count := 1, 0;
      coverFile := None;
      coverPreview := [];
    }

    /** The change handler of the file input. */
    method OnCoverChange(fileName: Option<string>)
      modifies this`coverFile, this`coverPreview
      ensures Valid() && coverFile == fileName
    {
      coverFile := fileName;
      coverPreview := CoverPreview(coverFile, nextId);
    }

    /** `fetchNext`: on an answer, take its count and next id; on a failure, change nothing. */
    method FetchNext(answer: Option<NextInfo>) returns (ok: bool)
      requires Valid()
      modifies this`nextId, this`count, this`coverPreview
      ensures Valid() && ok == answer.Some?
      ensures answer.None? ==> nextId == old(nextId) && count == old(count)
      ensures answer.Some? ==> nextId == answer.value.nextId && count == answer.value.count
    {
      if answer.None? {
        return false;
      }
      nextId := answer.value.nextId;
      count := answer.value.count;
      coverPreview := CoverPreview(coverFile, nextId);
      ok := true;
    }

    /**
     * The submit handler. Without a chosen cover nothing is sent. A failed save changes
     * nothing; a successful one advances `nextId` and resets the form, which clears the
     * chosen file and hence the cover preview.
     */
    method Submit(result: SaveResult) returns (sent: bool)
      requires Valid()
      modifies this`nextId, this`coverFile, this`coverPreview
      ensures Valid() && sent == old(coverFile).Some?
      ensures !sent || result.SaveFailed? ==>
        nextId == old(nextId) && coverFile == old(coverFile) && coverPreview == old(coverPreview)
      ensures sent && result.Saved? ==>
        nextId == NextIdAfterSave(old(nextId), result.id) && coverFile == None && coverPreview == []
    {
      if coverFile.None? {
        return false;
      }
      sent := true;
      if result.Saved? {
        nextId := NextIdAfterSave(nextId, result.id);
        coverFile := None;
        coverPreview := CoverPreview(coverFile, nextId);
      }
    }
  }
}

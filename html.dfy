/**
 * The text side of the public site: HTML escaping, the test that decides whether a review
 * body is already HTML, the dispatch between passing HTML through and rendering markdown,
 * and the plain-text snippet shown in result lists.
 */
module Html {
  import opened Text
  import opened Seqs

  // ---------------------------------------------------------------- escapeHtml

  /** `str.replace(/c/g, rep)` for a one-character pattern `c`. */
  function ReplaceChar(s: string, c: char, rep: string): string {
    if s == [] then [] else (if s[0] == c then rep else [s[0]]) + ReplaceChar(s[1..], c, rep)
  }

  /** `escapeHtml`: replace `&`, then `<`, then `>`, each everywhere. No `<` or `>` is left. */
  function EscapeHtml(s: string): (r: string)
    ensures '<' !in r && '>' !in r
  {
    var a := ReplaceChar(s, '&', "&amp;");
    var b := ReplaceChar(a, '<', "&lt;");
    ReplaceCharChars(a, '<', "&lt;", '<');
    ReplaceCharChars(b, '>', "&gt;", '<');
    ReplaceChar(b, '>', "&gt;")
  }

  /**
   * Replacing `c` by a text without `c` leaves no `c`, and brings in no character that
   * neither the input nor the replacement holds.
   */
  lemma {:induction false} ReplaceCharChars(s: string, c: char, rep: string, d: char)
    ensures c !in rep ==> c !in ReplaceChar(s, c, rep)
    ensures d !in s && d !in rep ==> d !in ReplaceChar(s, c, rep)
  {
    if s != [] {
      ReplaceCharChars(s[1..], c, rep, d);
    }
  }

  /**
   * What one input character has become after `stage` of the three decoding passes of
   * `DecodeEntities` were applied to the escaped text: stage 0 is the output of `EscapeHtml`,
   * stage 3 is the original character.
   */
  function Chunk(stage: nat, c: char): string {
    if c == '&' then (if stage < 3 then "&amp;" else "&")
    else if c == '<' then (if stage < 1 then "&lt;" else "<")
    else if c == '>' then (if stage < 2 then "&gt;" else ">")
    else [c]
  }

  /** The whole of `s`, character by character, at `stage`. */
  function Escaped(stage: nat, s: string): string {
    if s == [] then [] else Chunk(stage, s[0]) + Escaped(stage, s[1..])
  }

  lemma {:induction false} ReplaceCharConcat(a: string, b: string, c: char, rep: string)
    ensures ReplaceChar(a + b, c, rep) == ReplaceChar(a, c, rep) + ReplaceChar(b, c, rep)
  {
    if a != [] {
      assert (a + b)[1..] == a[1..] + b;
      ReplaceCharConcat(a[1..], b, c, rep);
    } else {
      assert a + b == b;
    }
  }

  lemma {:induction false} ReplaceCharAbsent(s: string, c: char, rep: string)
    requires c !in s
    ensures ReplaceChar(s, c, rep) == s
  {
    if s != [] {
      ReplaceCharAbsent(s[1..], c, rep);
    }
  }

  lemma ReplaceCharSingle(d: char, c: char, rep: string)
    ensures ReplaceChar([d], c, rep) == if d == c then rep else [d]
  {
    assert [d][1..] == [];
  }

  lemma EscapeHtmlOneChar(c: char)
    ensures EscapeHtml([c]) == Chunk(0, c)
  {
    ReplaceCharSingle(c, '&', "&amp;");
    if c == '&' {
      ReplaceCharAbsent("&amp;", '<', "&lt;");
      ReplaceCharAbsent("&amp;", '>', "&gt;");
    } else {
      ReplaceCharSingle(c, '<', "&lt;");
      if c == '<' {
        ReplaceCharAbsent("&lt;", '>', "&gt;");
      } else {
        ReplaceCharSingle(c, '>', "&gt;");
      }
    }
  }

  /** The three passes of `escapeHtml` amount to replacing each character by its entity, in place. */
  lemma {:induction false} EscapeHtmlPerChar(s: string)
    ensures EscapeHtml(s) == Escaped(0, s)
  {
    if s != [] {
      var a, b := [s[0]], s[1..];
      assert s == a + b;
      ReplaceCharConcat(a, b, '&', "&amp;");
      ReplaceCharConcat(ReplaceChar(a, '&', "&amp;"), ReplaceChar(b, '&', "&amp;"), '<', "&lt;");
      ReplaceCharConcat(ReplaceChar(ReplaceChar(a, '&', "&amp;"), '<', "&lt;"),
                        ReplaceChar(ReplaceChar(b, '&', "&amp;"), '<', "&lt;"), '>', "&gt;");
      EscapeHtmlOneChar(s[0]);
      EscapeHtmlPerChar(b);
    }
  }

  lemma {:induction false} EscapedIdentity(s: string)
    ensures Escaped(0, s) == s <==> ('&' !in s && '<' !in s && '>' !in s)
  {
    if s != [] {
      EscapedIdentity(s[1..]);
      var c := s[0];
      if c == '&' || c == '<' || c == '>' {
        // the entity is longer than the character it replaces
        EscapedLength(s[1..]);
        assert |Escaped(0, s)| > |s|;
      } else {
        assert s == [c] + s[1..];
      }
    }
  }

  lemma {:induction false} EscapedLength(s: string)
    ensures |Escaped(0, s)| >= |s|
  {
    if s != [] {
      EscapedLength(s[1..]);
    }
  }

  /** `escapeHtml` changes a string if and only if it holds `&`, `<` or `>`. */
  lemma EscapeHtmlIdentity(s: string)
    ensures EscapeHtml(s) == s <==> ('&' !in s && '<' !in s && '>' !in s)
  {
    EscapeHtmlPerChar(s);
    EscapedIdentity(s);
  }

  /** The number of occurrences of `c` in `s`. */
  function Count(s: string, c: char): nat {
    if s == [] then 0 else (if s[0] == c then 1 else 0) + Count(s[1..], c)
  }

  lemma {:induction false} CountConcat(a: string, b: string, c: char)
    ensures Count(a + b, c) == Count(a, c) + Count(b, c)
  {
    if a != [] {
      assert (a + b)[1..] == a[1..] + b;
      CountConcat(a[1..], b, c);
    } else {
      assert a + b == b;
    }
  }

  lemma {:induction false} CountAbsent(s: string, c: char)
    requires c !in s
    ensures Count(s, c) == 0
  {
    if s != [] {
      CountAbsent(s[1..], c);
    }
  }

  lemma {:induction false} EscapedKeepsQuotes(s: string, q: char)
    requires q == '"' || q == '\''
    ensures Count(Escaped(0, s), q) == Count(s, q)
  {
    if s != [] {
      CountConcat(Chunk(0, s[0]), Escaped(0, s[1..]), q);
      EscapedKeepsQuotes(s[1..], q);
      var c := s[0];
      if c == '&' || c == '<' || c == '>' {
        CountAbsent(Chunk(0, c), q);
      } else {
        assert [c][1..] == [];
      }
    }
  }

  /** Quote characters pass through `escapeHtml`: the output has as many of each as the input. */
  lemma EscapeHtmlKeepsQuotes(s: string, q: char)
    requires q == '"' || q == '\''
    ensures Count(EscapeHtml(s), q) == Count(s, q)
  {
    EscapeHtmlPerChar(s);
    EscapedKeepsQuotes(s, q);
  }

  // ---------------------------------------------------------------- decoding the entities

  /** `s.replace(/pat/g, rep)` for a literal pattern: left to right, without overlap. */
  function ReplaceText(s: string, pat: string, rep: string): string
    requires pat != []
    decreases |s|
  {
    if s == [] then []
    else if pat <= s then rep + ReplaceText(s[|pat|..], pat, rep)
    else [s[0]] + ReplaceText(s[1..], pat, rep)
  }

  /** The inverse of `escapeHtml`: decode `&lt;`, then `&gt;`, then `&amp;`. */
  function DecodeEntities(s: string): string {
    ReplaceText(ReplaceText(ReplaceText(s, "&lt;", "<"), "&gt;", ">"), "&amp;", "&")
  }

  function Pattern(stage: nat): string requires stage < 3 {
    if stage == 0 then "&lt;" else if stage == 1 then "&gt;" else "&amp;"
  }

  function Replacement(stage: nat): string requires stage < 3 {
    if stage == 0 then "<" else if stage == 1 then ">" else "&"
  }

  /** Text without the pattern's first character is copied unchanged. */
  lemma {:induction false} ReplaceTextSkip(x: string, t: string, pat: string, rep: string)
    requires pat != [] && pat[0] !in x
    ensures ReplaceText(x + t, pat, rep) == x + ReplaceText(t, pat, rep)
  {
    if x != [] {
      assert (x + t)[1..] == x[1..] + t;
      assert (x + t)[0] == x[0];
      ReplaceTextSkip(x[1..], t, pat, rep);
    } else {
      assert x + t == t;
    }
  }

  /** An occurrence of the pattern is replaced. */
  lemma ReplaceTextMatch(t: string, pat: string, rep: string)
    requires pat != []
    ensures ReplaceText(pat + t, pat, rep) == rep + ReplaceText(t, pat, rep)
  {
    assert pat <= pat + t && (pat + t)[|pat|..] == t;
  }

  /** An entity other than the pattern is copied unchanged: it differs from it in its second character. */
  lemma ReplaceTextOtherEntity(e: string, t: string, pat: string, rep: string)
    requires |e| >= 2 && |pat| >= 2 && e[0] == pat[0] && e[1] != pat[1] && pat[0] !in e[1..]
    ensures ReplaceText(e + t, pat, rep) == e + ReplaceText(t, pat, rep)
  {
    assert (e + t)[1] == e[1];
    assert (e + t)[1..] == e[1..] + t;
    ReplaceTextSkip(e[1..], t, pat, rep);
    assert e == [e[0]] + e[1..];
  }

  lemma ChunkStep(stage: nat, c: char, t: string)
    requires stage < 3
    ensures ReplaceText(Chunk(stage, c) + t, Pattern(stage), Replacement(stage))
         == Chunk(stage + 1, c) + ReplaceText(t, Pattern(stage), Replacement(stage))
  {
    var e, pat, rep := Chunk(stage, c), Pattern(stage), Replacement(stage);
    if c != '&' && c != '<' && c != '>' {
      ReplaceTextSkip(e, t, pat, rep);
    } else if e == pat {
      ReplaceTextMatch(t, pat, rep);
    } else if e[0] == '&' {
      ReplaceTextOtherEntity(e, t, pat, rep);
    } else {
      ReplaceTextSkip(e, t, pat, rep);
    }
  }

  /** Each decoding pass takes the text one stage back towards the original. */
  lemma {:induction false} EscapedStep(stage: nat, s: string)
    requires stage < 3
    ensures ReplaceText(Escaped(stage, s), Pattern(stage), Replacement(stage)) == Escaped(stage + 1, s)
  {
    if s != [] {
      ChunkStep(stage, s[0], Escaped(stage, s[1..]));
      EscapedStep(stage, s[1..]);
    }
  }

  lemma {:induction false} EscapedFinal(s: string)
    ensures Escaped(3, s) == s
  {
    if s != [] {
      EscapedFinal(s[1..]);
      assert s == [s[0]] + s[1..];
    }
  }

  /** Decoding `&lt;`, `&gt;` and then `&amp;` restores the input of `escapeHtml`. */
  lemma EscapeHtmlRoundTrip(s: string)
    ensures DecodeEntities(EscapeHtml(s)) == s
  {
    EscapeHtmlPerChar(s);
    EscapedStep(0, s);
    EscapedStep(1, s);
    EscapedStep(2, s);
    EscapedFinal(s);
  }

  // ---------------------------------------------------------------- isHtml and reviewToHtml

  /**
   * A match of `/<\/?[a-z][\s\S]*>/i` in `s`: a `<` at `i`, optionally followed by `/`,
   * an ASCII letter at `k`, and a `>` at some later position `j`.
   */
  ghost predicate TagShapeAt(s: string, i: int, k: int, j: int) {
    && 0 <= i < k < j < |s|
    && s[i] == '<' && IsAsciiLetter(s[k]) && s[j] == '>'
    && (k == i + 1 || (k == i + 2 && s[i + 1] == '/'))
  }

  ghost predicate HasTagShape(s: string) {
    exists i, k, j :: TagShapeAt(s, i, k, j)
  }

  /** What may follow the `<` of a tag: a letter, or `/` and a letter, and later a `>`. */
  predicate TagRest(t: string) {
    || (|t| > 0 && IsAsciiLetter(t[0]) && '>' in t[1..])
    || (|t| > 1 && t[0] == '/' && IsAsciiLetter(t[1]) && '>' in t[2..])
  }

  /** `isHtml`: scans for a `<` that starts a tag shape; a text it accepts holds a `<` and a later `>`. */
  function IsHtml(s: string): (b: bool)
    ensures b ==> |s| >= 3 && '<' in s && '>' in s
    decreases |s|
  {
    if |s| < 3 then false
    else (s[0] == '<' && TagRest(s[1..])) || IsHtml(s[1..])
  }

  lemma {:induction false} IsHtmlCorrect(s: string)
    ensures IsHtml(s) <==> HasTagShape(s)
    decreases |s|
  {
    if |s| >= 3 {
      var t := s[1..];
      IsHtmlCorrect(t);
      if IsHtml(s) {
        if s[0] == '<' && TagRest(t) {
          if |t| > 0 && IsAsciiLetter(t[0]) && '>' in t[1..] {
            var m := IndexOf(t[1..], '>');
            assert TagShapeAt(s, 0, 1, m + 2);
          } else {
            var m := IndexOf(t[2..], '>');
            assert TagShapeAt(s, 0, 2, m + 3);
          }
        } else {
          var i, k, j :| TagShapeAt(t, i, k, j);
          assert TagShapeAt(s, i + 1, k + 1, j + 1);
        }
      }
      if HasTagShape(s) {
        var i, k, j :| TagShapeAt(s, i, k, j);
        if i == 0 {
          if k == 1 {
            assert t[1..][j - 2] == '>';
          } else {
            assert t[2..][j - 3] == '>';
          }
          assert TagRest(t);
        } else {
          assert TagShapeAt(t, i - 1, k - 1, j - 1);
        }
      }
    }
  }

  /** Trimming cannot make or break a tag shape, because none of its characters is a space. */
  lemma TrimKeepsTagShape(s: string)
    ensures HasTagShape(Trim(s, IsJsSpace)) <==> HasTagShape(s)
  {
    TrimKeepsTagShapeFor(s, IsJsSpace);
  }

  lemma TrimKeepsTagShapeFor(s: string, isSpace: char -> bool)
    requires !isSpace('<') && !isSpace('>')
    ensures HasTagShape(Trim(s, isSpace)) <==> HasTagShape(s)
  {
    var r, a := Trim(s, isSpace), LeadingCount(s, isSpace);
    assert s[a..a + |r|] == r;
    if HasTagShape(r) {
      var i, k, j :| TagShapeAt(r, i, k, j);
      TagShapeFromSlice(s, a, a + |r|, i, k, j);
    }
    if HasTagShape(s) {
      var i, k, j :| TagShapeAt(s, i, k, j);
      TrimKeepsNonSpace(s, isSpace, i);
      TrimKeepsNonSpace(s, isSpace, j);
      TagShapeToSlice(s, a, a + |r|, i, k, j);
      assert TagShapeAt(r, i - a, k - a, j - a);
    }
  }

  /** A tag shape in a slice is one in the whole string, shifted by the slice's start. */
  lemma TagShapeFromSlice(s: string, lo: nat, hi: nat, i: int, k: int, j: int)
    requires lo <= hi <= |s| && TagShapeAt(s[lo..hi], i, k, j)
    ensures TagShapeAt(s, i + lo, k + lo, j + lo)
  {
    var t := s[lo..hi];
    assert t[i] == s[i + lo] && t[k] == s[k + lo] && t[j] == s[j + lo] && t[i + 1] == s[i + 1 + lo];
  }

  /** A tag shape lying inside a slice is one of the slice. */
  lemma TagShapeToSlice(s: string, lo: nat, hi: nat, i: int, k: int, j: int)
    requires lo <= i && j < hi <= |s| && TagShapeAt(s, i, k, j)
    ensures TagShapeAt(s[lo..hi], i - lo, k - lo, j - lo)
  {
    var t := s[lo..hi];
    assert t[i - lo] == s[i] && t[k - lo] == s[k] && t[j - lo] == s[j] && t[i + 1 - lo] == s[i + 1];
  }

  /**
   * `reviewToHtml(content)` with the markdown renderer `markdown`: empty for an empty body,
   * the body unchanged when it holds a tag shape anywhere, and the rendered markdown otherwise.
   */
  function ReviewToHtml(content: string, markdown: string -> string): (html: string)
    ensures content == [] ==> html == []
    ensures HasTagShape(content) ==> html == content
    ensures content != [] && !HasTagShape(content) ==> html == markdown(content)
  {
    IsHtmlCorrect(Trim(content, IsJsSpace));
    TrimKeepsTagShape(content);
    if content == [] then []
    else if IsHtml(Trim(content, IsJsSpace)) then content
    else markdown(content)
  }

  // ---------------------------------------------------------------- snippetFromReview

  const Ellipsis: char := '…'

  /** A match of `/<[^>]+>/` starts at `i`: a `<`, at least one character other than `>`, then a `>`. */
  predicate TagMatchAt(s: string, i: nat) {
    i + 1 < |s| && s[i] == '<' && s[i + 1] != '>' && '>' in s[i + 2..]
  }

  /** `html.replace(/<[^>]+>/g, ' ')`: every tag becomes one space. */
  function StripTags(s: string): (r: string)
    ensures '>' in r ==> '>' in s
    ensures r != [] ==> s != [] && (r[0] == ' ' || r[0] == s[0])
    ensures s != [] && !TagMatchAt(s, 0) ==> r != [] && r[0] == s[0]
    decreases |s|
  {
    if s == [] then []
    else if TagMatchAt(s, 0) then
      var j := 2 + IndexOf(s[2..], '>');
      [' '] + StripTags(s[j + 1..])
    else
      [s[0]] + StripTags(s[1..])
  }

  /** A text without `<` holds no tag and passes through unchanged. */
  lemma {:induction false} StripTagsNoTag(s: string)
    requires '<' !in s
    ensures StripTags(s) == s
    decreases |s|
  {
    if s != [] {
      assert '<' !in s[1..];
      StripTagsNoTag(s[1..]);
    }
  }

  /** No tag is left for the pattern to match: stripping a second time would change nothing. */
  lemma {:induction false} StripTagsLeavesNoTag(s: string, i: nat)
    ensures !TagMatchAt(StripTags(s), i)
    decreases |s|
  {
    if s != [] && i == 0 {
      NoTagAtStart(s);
    } else if s != [] {
      StripTagsLeavesNoTag(StripRest(s), i - 1);
      NoTagAfterFirst(s, i);
    }
  }

  /** What `StripTags` goes on with after the first character or tag of `s`. */
  function StripRest(s: string): (t: string)
    requires s != []
    ensures |t| < |s|
  {
    if TagMatchAt(s, 0) then s[2 + IndexOf(s[2..], '>') + 1..] else s[1..]
  }

  /** Past its first character, the output for `s` is the output for the rest of `s`. */
  lemma NoTagAfterFirst(s: string, i: nat)
    requires s != [] && 0 < i
    requires !TagMatchAt(StripTags(StripRest(s)), i - 1)
    ensures !TagMatchAt(StripTags(s), i)
  {
    var r, r' := StripTags(s), StripTags(StripRest(s));
    assert r == [r[0]] + r';
    if i + 1 < |r| {
      assert r[i + 2..] == r'[i + 1..];
    }
  }

  /** Stripping never leaves a tag at the front: a `<` kept there had no tag after it. */
  lemma NoTagAtStart(s: string)
    requires s != []
    ensures !TagMatchAt(StripTags(s), 0)
  {
    var r := StripTags(s);
    if r[0] == '<' && |s| > 1 {
      assert !TagMatchAt(s, 0) && s[0] == '<';
      var rest := StripTags(s[1..]);
      assert r == [s[0]] + rest;
      if s[1] != '>' {
        assert '>' !in s[2..];
        assert rest == [s[1]] + StripTags(s[2..]);
        assert r[2..] == StripTags(s[2..]);
      }
    }
  }

  /** `text.replace(/\s+/g, ' ')`: every run of white space becomes one space. */
  function CollapseSpaces(s: string): (r: string)
    ensures r == [] <==> s == []
    ensures r != [] ==> (IsJsSpace(r[0]) <==> IsJsSpace(s[0]))
    ensures forall i :: 0 <= i < |r| && IsJsSpace(r[i]) ==> r[i] == ' '
    ensures forall i :: 0 <= i < |r| - 1 ==> !(IsJsSpace(r[i]) && IsJsSpace(r[i + 1]))
    ensures (forall i :: 0 <= i < |s| ==> !IsJsSpace(s[i])) ==> r == s
    decreases |s|
  {
    if s == [] then []
    else if IsJsSpace(s[0]) then [' '] + CollapseSpaces(s[LeadingCount(s, IsJsSpace)..])
    else [s[0]] + CollapseSpaces(s[1..])
  }

  /** The characters of `s` that are not white space, in their order. */
  function NonSpace(s: string): string {
    if s == [] then [] else (if IsJsSpace(s[0]) then [] else [s[0]]) + NonSpace(s[1..])
  }

  lemma {:induction false} NonSpaceConcat(a: string, b: string)
    ensures NonSpace(a + b) == NonSpace(a) + NonSpace(b)
  {
    if a == [] {
      assert a + b == b;
    } else {
      assert (a + b)[1..] == a[1..] + b;
      NonSpaceConcat(a[1..], b);
    }
  }

  lemma {:induction false} NonSpaceOfSpaces(s: string)
    requires forall i :: 0 <= i < |s| ==> IsJsSpace(s[i])
    ensures NonSpace(s) == []
  {
    if s != [] {
      NonSpaceOfSpaces(s[1..]);
    }
  }

  /** Where `CollapseSpaces` continues after the first character or run of spaces of `s`. */
  function CollapseStep(s: string): (k: nat)
    requires s != []
    ensures 0 < k <= |s|
  {
    if IsJsSpace(s[0]) then LeadingCount(s, IsJsSpace) else 1
  }

  lemma CollapseUnfold(s: string)
    requires s != []
    ensures CollapseSpaces(s) == [if IsJsSpace(s[0]) then ' ' else s[0]] + CollapseSpaces(s[CollapseStep(s)..])
  {
  }

  /** The characters skipped by one step hold at most the first one, which is not white space. */
  lemma NonSpaceStep(s: string)
    requires s != []
    ensures NonSpace(s) == NonSpace([if IsJsSpace(s[0]) then ' ' else s[0]]) + NonSpace(s[CollapseStep(s)..])
  {
    var k := CollapseStep(s);
    assert s == s[..k] + s[k..];
    NonSpaceConcat(s[..k], s[k..]);
    if IsJsSpace(s[0]) {
      NonSpaceOfSpaces(s[..k]);
    }
  }

  /** Collapsing white space keeps every other character, in order. */
  lemma {:induction false} CollapseKeepsText(s: string)
    ensures NonSpace(CollapseSpaces(s)) == NonSpace(s)
    decreases |s|
  {
    if s != [] {
      var head := [if IsJsSpace(s[0]) then ' ' else s[0]];
      var rest := s[CollapseStep(s)..];
      CollapseKeepsText(rest);
      CollapseUnfold(s);
      NonSpaceConcat(head, CollapseSpaces(rest));
      NonSpaceStep(s);
    }
  }

  /** Trimming removes white space only. */
  lemma TrimKeepsText(c: string)
    ensures NonSpace(Trim(c, IsJsSpace)) == NonSpace(c)
  {
    var a, r := LeadingCount(c, IsJsSpace), Trim(c, IsJsSpace);
    var e := a + |r|;
    assert c == c[..a] + r + c[e..];
    NonSpaceConcat(c[..a] + r, c[e..]);
    NonSpaceConcat(c[..a], r);
    NonSpaceOfSpaces(c[..a]);
    NonSpaceOfSpaces(c[e..]);
  }

  /** A run of white space collapses to a single space. */
  lemma CollapseOfSpaces(w: string)
    requires w != [] && forall i :: 0 <= i < |w| ==> IsJsSpace(w[i])
    ensures CollapseSpaces(w) == " "
  {
    assert LeadingCount(w, IsJsSpace) == |w|;
  }

  /**
   * Collapsing works piece by piece wherever the cut does not split a run of white space:
   * text on either side of the cut is collapsed on its own.
   */
  lemma {:induction false} CollapseConcat(a: string, b: string)
    requires Joinable(a, b)
    ensures CollapseSpaces(a + b) == CollapseSpaces(a) + CollapseSpaces(b)
    decreases |a|
  {
    if a == [] {
      assert a + b == b;
    } else {
      JoinableRest(a, b);
      CollapseConcat(a[CollapseStep(a)..], b);
      CollapseConcatStep(a, b);
    }
  }

  /** One step of `CollapseConcat`: if the rest of `a` collapses apart from `b`, so does `a`. */
  lemma CollapseConcatStep(a: string, b: string)
    requires a != [] && Joinable(a, b)
    requires CollapseSpaces(a[CollapseStep(a)..] + b) == CollapseSpaces(a[CollapseStep(a)..]) + CollapseSpaces(b)
    ensures CollapseSpaces(a + b) == CollapseSpaces(a) + CollapseSpaces(b)
  {
    var t := a[CollapseStep(a)..];
    CollapseHeadConcat(a, b);
    Regroup(Lead(a), CollapseSpaces(t), CollapseSpaces(b), CollapseSpaces(a + b), CollapseSpaces(t + b), CollapseSpaces(a));
  }

  lemma Regroup(l: string, x: string, y: string, u: string, v: string, w: string)
    requires u == l + v && v == x + y && w == l + x
    ensures u == w + y
  {
  }

  /** The cut between `a` and `b` does not split a run of white space. */
  predicate Joinable(a: string, b: string) {
    a != [] && b != [] ==> !(IsJsSpace(a[|a| - 1]) && IsJsSpace(b[0]))
  }

  /** Dropping the first step of `a` keeps the cut to `b` joinable. */
  lemma JoinableRest(a: string, b: string)
    requires a != [] && Joinable(a, b)
    ensures Joinable(a[CollapseStep(a)..], b)
  {
    var t := a[CollapseStep(a)..];
    assert t != [] ==> t[|t| - 1] == a[|a| - 1];
  }

  /** What `CollapseSpaces` emits for the first character or run of spaces of `s`. */
  function Lead(s: string): string
    requires s != []
  {
    [if IsJsSpace(s[0]) then ' ' else s[0]]
  }

  /** Collapsing `a + b` and collapsing `a` start in the same way. */
  lemma CollapseHeadConcat(a: string, b: string)
    requires a != [] && Joinable(a, b)
    ensures CollapseSpaces(a + b) == Lead(a) + CollapseSpaces(a[CollapseStep(a)..] + b)
    ensures CollapseSpaces(a) == Lead(a) + CollapseSpaces(a[CollapseStep(a)..])
  {
    CollapseStepConcat(a, b);
    CollapseUnfold(a + b);
    CollapseUnfold(a);
  }

  /** The first step of collapsing `a + b` is the first step of collapsing `a`. */
  lemma CollapseStepConcat(a: string, b: string)
    requires a != [] && Joinable(a, b)
    ensures (a + b)[0] == a[0] && CollapseStep(a + b) == CollapseStep(a)
    ensures (a + b)[CollapseStep(a)..] == a[CollapseStep(a)..] + b
  {
    if IsJsSpace(a[0]) {
      var k := LeadingCount(a, IsJsSpace);
      forall i | 0 <= i < k
        ensures IsJsSpace((a + b)[i])
      {
        assert (a + b)[i] == a[i];
      }
      if k < |a| {
        assert (a + b)[k] == a[k];
      } else if b != [] {
        assert IsJsSpace(a[|a| - 1]);
        assert (a + b)[k] == b[0];
      }
      LeadingCountOf(a + b, IsJsSpace, k);
    }
    var c := CollapseStep(a);
    assert (a + b)[c..] == a[c..] + b;
  }

  /** White space before a word collapses to one space. */
  lemma CollapseSpacesThenWord(w: string, y: string)
    requires w != [] && y != []
    requires forall i :: 0 <= i < |w| ==> IsJsSpace(w[i])
    requires forall i :: 0 <= i < |y| ==> !IsJsSpace(y[i])
    ensures CollapseSpaces(w + y) == " " + y
  {
    assert !IsJsSpace(y[0]);
    CollapseConcat(w, y);
    CollapseOfSpaces(w);
    assert CollapseSpaces(y) == y;
  }

  /** Two words separated by white space collapse to the two words with one space between them. */
  lemma CollapseOfWords(x: string, w: string, y: string)
    requires x != [] && w != [] && y != []
    requires forall i :: 0 <= i < |x| ==> !IsJsSpace(x[i])
    requires forall i :: 0 <= i < |w| ==> IsJsSpace(w[i])
    requires forall i :: 0 <= i < |y| ==> !IsJsSpace(y[i])
    ensures CollapseSpaces(x + w + y) == x + " " + y
  {
    var wy := w + y;
    assert x + w + y == x + wy;
    CollapseSpacesThenWord(w, y);
    assert !IsJsSpace(x[|x| - 1]);
    CollapseConcat(x, wy);
    assert CollapseSpaces(x) == x;
    Regroup(x, " ", y, CollapseSpaces(x + wy), CollapseSpaces(wy), x + " ");
  }

  /**
   * Two words separated by white space become the two words with one space between them:
   * the white space is neither kept nor dropped.
   */
  lemma PlainTextOfWords(x: string, w: string, y: string)
    requires x != [] && w != [] && y != []
    requires '<' !in x && '<' !in y
    requires forall i :: 0 <= i < |x| ==> !IsJsSpace(x[i])
    requires forall i :: 0 <= i < |w| ==> IsJsSpace(w[i])
    requires forall i :: 0 <= i < |y| ==> !IsJsSpace(y[i])
    ensures PlainText(x + w + y) == x + " " + y
  {
    var s := x + w + y;
    NoTagInSpaces(w);
    assert '<' !in s;
    StripTagsNoTag(s);
    CollapseOfWords(x, w, y);
    TrimUnpadded(x + " " + y, IsJsSpace);
  }

  lemma NoTagInSpaces(w: string)
    requires forall i :: 0 <= i < |w| ==> IsJsSpace(w[i])
    ensures '<' !in w
  {
    assert !IsJsSpace('<');
  }

  /**
   * The plain text a snippet is cut from: tags stripped, white space collapsed, trimmed.
   */
  function PlainText(html: string): (text: string)
    ensures text != [] ==> !IsJsSpace(text[0]) && !IsJsSpace(text[|text| - 1])
    ensures forall i :: 0 <= i < |text| && IsJsSpace(text[i]) ==> text[i] == ' '
    ensures forall i :: 0 <= i < |text| - 1 ==> !(IsJsSpace(text[i]) && IsJsSpace(text[i + 1]))
  {
    var c := CollapseSpaces(StripTags(html));
    TrimKeepsSpacing(c);
    Trim(c, IsJsSpace)
  }

  /** Trimming keeps "single plain spaces only": the trimmed text is a slice of its input. */
  lemma TrimKeepsSpacing(c: string)
    requires forall i :: 0 <= i < |c| && IsJsSpace(c[i]) ==> c[i] == ' '
    requires forall i :: 0 <= i < |c| - 1 ==> !(IsJsSpace(c[i]) && IsJsSpace(c[i + 1]))
    ensures var t := Trim(c, IsJsSpace);
      && (forall i :: 0 <= i < |t| && IsJsSpace(t[i]) ==> t[i] == ' ')
      && (forall i :: 0 <= i < |t| - 1 ==> !(IsJsSpace(t[i]) && IsJsSpace(t[i + 1])))
  {
    var t, a := Trim(c, IsJsSpace), LeadingCount(c, IsJsSpace);
    forall i | 0 <= i < |t| {
      TrimAt(c, IsJsSpace, i);
    }
  }

  /** The plain text keeps every character of the stripped html that is not white space, in order. */
  lemma PlainTextKeepsText(html: string)
    ensures NonSpace(PlainText(html)) == NonSpace(StripTags(html))
  {
    CollapseKeepsText(StripTags(html));
    TrimKeepsText(CollapseSpaces(StripTags(html)));
  }

  /** A text with no `<` and no white space is its own plain text. */
  lemma PlainTextOfWord(s: string)
    requires '<' !in s && forall i :: 0 <= i < |s| ==> !IsJsSpace(s[i])
    ensures PlainText(s) == s
  {
    StripTagsNoTag(s);
    var r := Trim(s, IsJsSpace);
    assert LeadingCount(s, IsJsSpace) == 0;
    assert |r| == |s|;
  }

  /**
   * The truncation step of `snippetFromReview` on the plain text: the escaped text when it
   * fits in `maxLen`, otherwise the escaped, trimmed `text.slice(0, maxLen)` and an ellipsis.
   */
  function SnippetFromText(text: string, maxLen: int): (snippet: string)
    ensures '<' !in snippet && '>' !in snippet
    ensures maxLen < |text| ==> snippet != [] && snippet[|snippet| - 1] == Ellipsis
  {
    if |text| <= maxLen then EscapeHtml(text)
    else EscapeHtml(Trim(JsSlice(text, maxLen), IsJsSpace)) + [Ellipsis]
  }

  /** `snippetFromReview(r, maxLen)`, with the markdown renderer `markdown` (`maxLen` is 220 when the caller gives none). */
  function SnippetFromReview(review: string, maxLen: int, markdown: string -> string): (snippet: string)
    ensures '<' !in snippet && '>' !in snippet
    ensures maxLen < |PlainText(ReviewToHtml(review, markdown))| ==> snippet != [] && snippet[|snippet| - 1] == Ellipsis
  {
    SnippetFromText(PlainText(ReviewToHtml(review, markdown)), maxLen)
  }

  /** A text that fits is shown whole and escaped: decoding the snippet gives the text back. */
  lemma SnippetShort(text: string, maxLen: int)
    requires |text| <= maxLen
    ensures '<' !in SnippetFromText(text, maxLen) && '>' !in SnippetFromText(text, maxLen)
    ensures DecodeEntities(SnippetFromText(text, maxLen)) == text
  {
    EscapeHtmlRoundTrip(text);
  }

  /**
   * A text that does not fit, and does not start with a space, is shown as the escape of its
   * first `maxLen` characters with the white space at the cut removed, followed by an
   * ellipsis. The snippet holds no `<` and no `>`.
   */
  lemma SnippetLong(text: string, maxLen: int)
    requires maxLen < |text|
    requires text != [] ==> !IsJsSpace(text[0])
    ensures var snippet := SnippetFromText(text, maxLen);
      && snippet != [] && snippet[|snippet| - 1] == Ellipsis
      && '<' !in snippet && '>' !in snippet
      && var shown := DecodeEntities(snippet[..|snippet| - 1]);
         && shown <= text
         && (0 <= maxLen ==> |shown| <= maxLen)
         && (0 <= maxLen ==> forall i :: |shown| <= i < maxLen ==> IsJsSpace(text[i]))
         && (shown != [] ==> !IsJsSpace(shown[|shown| - 1]))
  {
    var shown := Trim(JsSlice(text, maxLen), IsJsSpace);
    var snippet := SnippetFromText(text, maxLen);
    assert snippet == EscapeHtml(shown) + [Ellipsis];
    assert snippet[..|snippet| - 1] == EscapeHtml(shown);
    EscapeHtmlRoundTrip(shown);
    CutIsPrefix(text, maxLen);
  }

  /** The trimmed cut of a text that does not start with a space is a prefix that loses only spaces. */
  lemma CutIsPrefix(text: string, maxLen: int)
    requires maxLen < |text|
    requires text != [] ==> !IsJsSpace(text[0])
    ensures var shown := Trim(JsSlice(text, maxLen), IsJsSpace);
      && shown <= text
      && (0 <= maxLen ==> |shown| <= maxLen)
      && (0 <= maxLen ==> forall i :: |shown| <= i < maxLen ==> IsJsSpace(text[i]))
      && (shown != [] ==> !IsJsSpace(shown[|shown| - 1]))
  {
    var cut := JsSlice(text, maxLen);
    var shown := Trim(cut, IsJsSpace);
    assert cut == [] || !IsJsSpace(cut[0]);
    assert LeadingCount(cut, IsJsSpace) == 0;
    assert shown == cut[..|shown|];
    assert 0 <= maxLen ==> forall i :: |shown| <= i < maxLen ==> cut[i] == text[i];
  }

  /**
   * The same for a whole review: its snippet is escaped, ends in an ellipsis, and shows a
   * prefix of the plain text that stops short of `maxLen` characters only by white space.
   */
  lemma SnippetFromReviewLong(review: string, maxLen: int, markdown: string -> string)
    requires maxLen < |PlainText(ReviewToHtml(review, markdown))|
    ensures var text, snippet := PlainText(ReviewToHtml(review, markdown)), SnippetFromReview(review, maxLen, markdown);
      && snippet != [] && snippet[|snippet| - 1] == Ellipsis
      && '<' !in snippet && '>' !in snippet
      && var shown := DecodeEntities(snippet[..|snippet| - 1]);
         && shown <= text
         && (0 <= maxLen ==> |shown| <= maxLen)
         && (0 <= maxLen ==> forall i :: |shown| <= i < maxLen ==> IsJsSpace(text[i]))
  {
    SnippetLong(PlainText(ReviewToHtml(review, markdown)), maxLen);
  }
}

/** Charset resolution shared by both capture filters: the leftmost case-insensitive match of
    `charset\s*=\s*([\w-]+)` in a Content-Type value, with "UTF-8" as the fallback. This is a
    simplified reading of the charset parameter of section 8.3.2 of RFC 9110: quoted-string
    values are not recognised. */
module Charset {
  import opened Java

  const Keyword: string := "charset"
  const DefaultCharset: string := "UTF-8"

  /** CheckUtils.isEmpty on a String: true for null and for "". */
  predicate IsEmpty(s: Option<string>)
  {
    s.None? || s.value == []
  }

  /** A character of the capture group `[\w-]`. */
  predicate IsCharsetChar(c: char)
  {
    IsWordChar(c) || c == '-'
  }

  predicate AllCharsetChars(s: string)
  {
    forall k :: 0 <= k < |s| ==> IsCharsetChar(s[k])
  }

  predicate AllSpaces(s: string)
  {
    forall k :: 0 <= k < |s| ==> IsRegexSpace(s[k])
  }

  /** "charset" occurs at i, letters compared without regard to ASCII case. */
  predicate KeywordAt(s: string, i: nat)
  {
    i + |Keyword| <= |s| && forall k :: 0 <= k < |Keyword| ==> LowerAscii(s[i + k]) == Keyword[k]
  }

  /** The end of the run of `\s` characters that starts at i. */
  function SkipSpaces(s: string, i: nat): (j: nat)
    requires i <= |s|
    ensures i <= j <= |s| && AllSpaces(s[i..j]) && (j == |s| || !IsRegexSpace(s[j]))
    decreases |s| - i
  {
    if i < |s| && IsRegexSpace(s[i]) then SkipSpaces(s, i + 1) else i
  }

  /** The end of the run of `[\w-]` characters that starts at i. */
  function CharsetRunEnd(s: string, i: nat): (j: nat)
    requires i <= |s|
    ensures i <= j <= |s| && AllCharsetChars(s[i..j]) && (j == |s| || !IsCharsetChar(s[j]))
    decreases |s| - i
  {
    if i < |s| && IsCharsetChar(s[i]) then CharsetRunEnd(s, i + 1) else i
  }

  /** The capture of a match of the pattern that starts exactly at i, if there is one. Both
      `\s*` runs are greedy and the characters after them cannot be spaces, so the pattern
      never backtracks into them; `[\w-]+` takes the longest run. */
  function MatchAt(s: string, i: nat): (r: Option<string>)
    requires i <= |s|
    ensures r.Some? ==> r.value != [] && AllCharsetChars(r.value)
  {
    if !KeywordAt(s, i) then None
    else
      var p := SkipSpaces(s, i + |Keyword|);
      if p == |s| || s[p] != '=' then None
      else
        var q := SkipSpaces(s, p + 1);
        var e := CharsetRunEnd(s, q);
        if e == q then None else Some(s[q..e])
  }

  /** Matcher.find from position i: the capture of the leftmost match at or after i. */
  function FindFrom(s: string, i: nat): (r: Option<string>)
    requires i <= |s|
    ensures r.Some? ==> r.value != [] && AllCharsetChars(r.value)
    decreases |s| - i
  {
    match MatchAt(s, i)
    case Some(c) => Some(c)
    case None => if i == |s| then None else FindFrom(s, i + 1)
  }

  /** getCharset: the trimmed capture of the leftmost match, or "UTF-8" when the content type
      is empty or has no match. */
  function GetCharset(contentType: Option<string>): (r: string)
    ensures r != [] && AllCharsetChars(r)
    ensures IsEmpty(contentType) ==> r == DefaultCharset
  {
    if IsEmpty(contentType) then DefaultCharset
    else match FindFrom(contentType.value, 0)
      case Some(c) => TrimIsIdentityOnCaptures(s := c); Trim(c)
      case None => DefaultCharset
  }

  // ---------------------------------------------------------------- what a match is

  /** A declarative reading of one match of the pattern at i: the keyword, spaces up to the
      '=' at p, spaces up to the capture at q, and a capture c that is a maximal non-empty
      run of `[\w-]`. */
  ghost predicate MatchWith(s: string, i: nat, p: nat, q: nat, c: string)
  {
    && KeywordAt(s, i)
    && i + |Keyword| <= p < q <= |s|
    && s[p] == '='
    && AllSpaces(s[i + |Keyword|..p])
    && AllSpaces(s[p + 1..q])
    && c != [] && q + |c| <= |s| && s[q..q + |c|] == c && AllCharsetChars(c)
    && (q + |c| == |s| || !IsCharsetChar(s[q + |c|]))
  }

  lemma MatchAtSound(s: string, i: nat)
    requires i <= |s| && MatchAt(s, i).Some?
    ensures exists p, q :: MatchWith(s, i, p, q, MatchAt(s, i).value)
  {
    var p := SkipSpaces(s, i + |Keyword|);
    var q := SkipSpaces(s, p + 1);
    assert MatchWith(s, i, p, q, MatchAt(s, i).value);
  }

  /** A run of spaces that ends just before a non-space character is exactly what SkipSpaces
      skips. */
  lemma {:induction false} SkipSpacesExact(s: string, i: nat, j: nat)
    requires i <= j < |s| && AllSpaces(s[i..j]) && !IsRegexSpace(s[j])
    ensures SkipSpaces(s, i) == j
    decreases j - i
  {
    if i < j {
      assert IsRegexSpace(s[i..j][0]);
      assert s[i + 1..j] == s[i..j][1..];
      SkipSpacesExact(s, i + 1, j);
    }
  }

  lemma {:induction false} CharsetRunExact(s: string, i: nat, j: nat)
    requires i <= j <= |s| && AllCharsetChars(s[i..j]) && (j == |s| || !IsCharsetChar(s[j]))
    ensures CharsetRunEnd(s, i) == j
    decreases j - i
  {
    if i < j {
      assert IsCharsetChar(s[i..j][0]);
      assert s[i + 1..j] == s[i..j][1..];
      CharsetRunExact(s, i + 1, j);
    }
  }

  /** Every declarative match at i is the one MatchAt reports: a match at a position is unique. */
  lemma MatchAtComplete(s: string, i: nat, p: nat, q: nat, c: string)
    requires MatchWith(s, i, p, q, c)
    ensures MatchAt(s, i) == Some(c)
  {
    MatchWithSpaces(s, i, p, q, c);
    MatchWithRun(s, i, p, q, c);
  }

  /** The two `\s*` runs of a declarative match are the ones SkipSpaces finds. */
  lemma MatchWithSpaces(s: string, i: nat, p: nat, q: nat, c: string)
    requires MatchWith(s, i, p, q, c)
    ensures SkipSpaces(s, i + |Keyword|) == p && SkipSpaces(s, p + 1) == q
  {
    SkipSpacesExact(s, i + |Keyword|, p);
    assert IsCharsetChar(s[q..q + |c|][0]);
    SkipSpacesExact(s, p + 1, q);
  }

  /** The capture of a declarative match is the run CharsetRunEnd finds. */
  lemma MatchWithRun(s: string, i: nat, p: nat, q: nat, c: string)
    requires MatchWith(s, i, p, q, c)
    ensures CharsetRunEnd(s, q) == q + |c| && s[q..q + |c|] == c
  {
    CharsetRunExact(s, q, q + |c|);
  }

  /** FindFrom reports nothing only when no match starts at or after i. */
  lemma {:induction false} FindFromNone(s: string, i: nat)
    requires i <= |s|
    ensures FindFrom(s, i).None? ==> forall j :: i <= j <= |s| ==> MatchAt(s, j).None?
    decreases |s| - i
  {
    if i < |s| {
      FindFromNone(s, i + 1);
    }
  }

  /** No match starts at any position from i up to k. */
  ghost predicate NoMatchBetween(s: string, i: nat, k: nat)
    requires k <= |s|
  {
    forall j :: i <= j < k ==> MatchAt(s, j).None?
  }

  lemma NoMatchBetweenExtend(s: string, i: nat, k: nat)
    requires i < k <= |s| && MatchAt(s, i).None? && NoMatchBetween(s, i + 1, k)
    ensures NoMatchBetween(s, i, k)
  {
    forall j | i <= j < k ensures MatchAt(s, j).None? {
      if j > i {
        assert i + 1 <= j < k;
      }
    }
  }

  /** FindFrom reports the leftmost match at or after i. */
  lemma {:induction false} FindFromLeftmost(s: string, i: nat)
    requires i <= |s|
    ensures FindFrom(s, i).Some? ==>
      exists k :: i <= k <= |s| && MatchAt(s, k) == FindFrom(s, i) && NoMatchBetween(s, i, k)
    decreases |s| - i
  {
    if MatchAt(s, i).Some? {
      assert MatchAt(s, i) == FindFrom(s, i) && NoMatchBetween(s, i, i);
    } else if i < |s| && FindFrom(s, i).Some? {
      FindFromLeftmost(s, i + 1);
      var k :| i + 1 <= k <= |s| && MatchAt(s, k) == FindFrom(s, i + 1) && NoMatchBetween(s, i + 1, k);
      NoMatchBetweenExtend(s, i, k);
    }
  }

  /** The capture never starts or ends with a character String.trim removes, so the trim
      in getCharset is a no-op. */
  lemma TrimIsIdentityOnCaptures(s: string)
    requires AllCharsetChars(s)
    ensures Trim(s) == s
  {
    if s != [] {
      assert IsCharsetChar(s[0]) && IsCharsetChar(s[|s| - 1]);
      TrimUntrimmable(s);
    }
  }

  /** FindFrom skips positions where no match starts. */
  lemma {:induction false} FindFromSkips(s: string, i: nat, k: nat)
    requires i <= k <= |s| && NoMatchBetween(s, i, k)
    ensures FindFrom(s, i) == FindFrom(s, k)
    decreases k - i
  {
    if i < k {
      NoMatchBetweenShrink(s, i, k);
      FindFromStep(s, i);
      FindFromSkips(s, i + 1, k);
    }
  }

  lemma FindFromStep(s: string, i: nat)
    requires i < |s| && MatchAt(s, i).None?
    ensures FindFrom(s, i) == FindFrom(s, i + 1)
  {
  }

  lemma NoMatchBetweenShrink(s: string, i: nat, k: nat)
    requires i < k <= |s| && NoMatchBetween(s, i, k)
    ensures MatchAt(s, i).None? && NoMatchBetween(s, i + 1, k)
  {
  }

  /** Completeness: when a match starts at k and none starts earlier, getCharset returns its
      capture. */
  lemma GetCharsetLeftmost(ct: string, k: nat, p: nat, q: nat, c: string)
    requires MatchWith(ct, k, p, q, c)
    requires forall j :: 0 <= j < k ==> MatchAt(ct, j).None?
    ensures GetCharset(Some(ct)) == c
  {
    MatchAtComplete(ct, k, p, q, c);
    FindFromSkips(ct, 0, k);
    TrimIsIdentityOnCaptures(c);
  }

  /** getCharset returns the leftmost capture itself: trimming it changes nothing. */
  lemma GetCharsetOfFind(ct: string)
    requires ct != [] && FindFrom(ct, 0).Some?
    ensures GetCharset(Some(ct)) == FindFrom(ct, 0).value
  {
    TrimIsIdentityOnCaptures(FindFrom(ct, 0).value);
  }

  /** Soundness: when some match exists, getCharset returns the capture of a match that no
      earlier match precedes. */
  lemma GetCharsetFound(ct: string, j0: nat)
    requires j0 <= |ct| && MatchAt(ct, j0).Some?
    ensures exists k: nat, p: nat, q: nat :: MatchWith(ct, k, p, q, GetCharset(Some(ct)))
                                           && forall j :: 0 <= j < k ==> MatchAt(ct, j).None?
  {
    FindFromNone(ct, 0);
    FindFromLeftmost(ct, 0);
    var k :| 0 <= k <= |ct| && MatchAt(ct, k) == FindFrom(ct, 0) && NoMatchBetween(ct, 0, k);
    var c := MatchAt(ct, k).value;
    MatchAtSound(ct, k);
    var p, q :| MatchWith(ct, k, p, q, c);
    GetCharsetOfFind(ct);
    assert MatchWith(ct, k, p, q, GetCharset(Some(ct)));
  }

  /** The fallback: without any match, getCharset returns "UTF-8". */
  lemma GetCharsetNoMatch(ct: string)
    requires forall j :: 0 <= j <= |ct| ==> MatchAt(ct, j).None?
    ensures GetCharset(Some(ct)) == DefaultCharset
  {
    FindFromSkips(ct, 0, |ct|);
  }

  /** No match can start at j when "ch" (in any case) does not start there. */
  lemma NoMatchWithoutKeyword(s: string, j: nat)
    requires j <= |s|
    requires j + |Keyword| > |s| || LowerAscii(s[j]) != 'c' || LowerAscii(s[j + 1]) != 'h'
    ensures MatchAt(s, j).None?
  {
    assert Keyword[0] == 'c' && Keyword[1] == 'h';
  }

  /** Samples from ContentCachingFilter2's commented-out harness. */
  const SpacedUtf8 := "text/html; charset =   utf-8"
  const Utf16le := "text/css;charset =utf-16le"

  lemma SpacedUtf8Prefix()
    ensures forall j :: 0 <= j < 11 ==> MatchAt(SpacedUtf8, j).None?
  {
    forall j | 0 <= j < 11 ensures MatchAt(SpacedUtf8, j).None? { NoMatchWithoutKeyword(SpacedUtf8, j); }
  }

  lemma SpacedUtf8Match()
    ensures MatchWith(SpacedUtf8, 11, 19, 23, "utf-8")
  {
    var s := SpacedUtf8;
    assert KeywordAt(s, 11);
    assert s[18..19] == " " && s[20..23] == "   ";
    assert s[23..28] == "utf-8";
  }

  lemma SampleSpacedUtf8()
    ensures GetCharset(Some("text/html; charset =   utf-8")) == "utf-8"
  {
    SpacedUtf8Prefix();
    SpacedUtf8Match();
    GetCharsetLeftmost(SpacedUtf8, 11, 19, 23, "utf-8");
  }

  lemma Utf16lePrefix()
    ensures forall j :: 0 <= j < 9 ==> MatchAt(Utf16le, j).None?
  {
    forall j | 0 <= j < 9 ensures MatchAt(Utf16le, j).None? { NoMatchWithoutKeyword(Utf16le, j); }
  }

  lemma Utf16leMatch()
    ensures MatchWith(Utf16le, 9, 17, 18, "utf-16le")
  {
    var s := Utf16le;
    assert KeywordAt(s, 9);
    assert s[16..17] == " " && s[18..18] == [];
    assert s[18..26] == "utf-16le";
  }

  lemma SampleUtf16le()
    ensures GetCharset(Some("text/css;charset =utf-16le")) == "utf-16le"
  {
    Utf16lePrefix();
    Utf16leMatch();
    GetCharsetLeftmost(Utf16le, 9, 17, 18, "utf-16le");
  }

  lemma SampleNoCharset()
    ensures GetCharset(Some("text/plain")) == DefaultCharset
  {
    var s := "text/plain";
    forall j | 0 <= j <= |s| ensures MatchAt(s, j).None? { NoMatchWithoutKeyword(s, j); }
    GetCharsetNoMatch(s);
  }

  /** A keyword followed by '=' and only spaces captures nothing, so the fallback applies. */
  lemma SampleEmptyValue()
    ensures GetCharset(Some("application/xml; Charset=   ")) == DefaultCharset
  {
    var s := "application/xml; Charset=   ";
    forall j | 0 <= j <= |s| && j != 17 ensures MatchAt(s, j).None? { NoMatchWithoutKeyword(s, j); }
    assert KeywordAt(s, 17);
    assert SkipSpaces(s, 24) == 24;
    assert SkipSpaces(s, 25) == 28;
    assert MatchAt(s, 17).None?;
    GetCharsetNoMatch(s);
  }

  /** The keyword need not start a word: "xcharset=" matches too. */
  lemma SampleInsideWord()
    ensures GetCharset(Some("text/plain; xcharset=latin1")) == "latin1"
  {
    var s := "text/plain; xcharset=latin1";
    forall j | 0 <= j < 13 ensures MatchAt(s, j).None? { NoMatchWithoutKeyword(s, j); }
    assert MatchWith(s, 13, 20, 21, "latin1");
    GetCharsetLeftmost(s, 13, 20, 21, "latin1");
  }
}

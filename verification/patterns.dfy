/** The two file-name patterns of compare_md5s.py, written out by hand: the
    discovery filter `re.search('.mkv.videomd5', f)` and the base-name extraction
    `re.match('(.+?)\.mkv\.videomd5', f).group(1)`. */
module Patterns {
  import opened Wrappers
  import Seqs

  /** The literal text the extraction pattern expects after the base name. */
  const AnchorSuffix := ".mkv.videomd5"

  /** Both patterns span the characters of `.mkv.videomd5`; the filter reads its two
      dots as "any character". */
  const PatternLength := |AnchorSuffix|

  /** The characters Python's regular-expression `.` matches without the DOTALL flag. */
  predicate IsRegexDot(c: char)
  {
    c != '\n'
  }

  predicate NoNewline(s: string)
  {
    forall j :: 0 <= j < |s| ==> IsRegexDot(s[j])
  }

  /** The unescaped pattern `.mkv.videomd5` matches at index `i` of `f`: one arbitrary
      character, `mkv`, one arbitrary character, `videomd5`. */
  predicate FilterMatchesAt(f: string, i: int)
  {
    && 0 <= i && i + PatternLength <= |f|
    && IsRegexDot(f[i]) && f[i + 1..i + 4] == "mkv"
    && IsRegexDot(f[i + 4]) && f[i + 5..i + PatternLength] == "videomd5"
  }

  /** `re.search` tries every start index from `i` on, left to right. */
  function SearchFrom(f: string, i: nat): (r: bool)
    requires i <= |f|
    ensures r <==> exists j :: i <= j && FilterMatchesAt(f, j)
    decreases |f| - i
  {
    if i + PatternLength > |f| then false
    else if FilterMatchesAt(f, i) then true
    else SearchFrom(f, i + 1)
  }

  /** The discovery filter: the pattern matches somewhere in `f`, with no anchoring
      at either end. */
  function PassesAnchorFilter(f: string): (r: bool)
    ensures r <==> exists i :: FilterMatchesAt(f, i)
  {
    SearchFrom(f, 0)
  }

  /** The extraction pattern succeeds with a group of length `k`: the group is
      non-empty, every character of it is matched by `.`, and `.mkv.videomd5` follows
      it literally. Nothing is required of the text after the suffix. */
  predicate BaseEndsAt(name: string, k: int)
  {
    && 1 <= k && k + |AnchorSuffix| <= |name|
    && NoNewline(name[..k])
    && name[k..k + |AnchorSuffix|] == AnchorSuffix
  }

  /** The non-greedy group `(.+?)` tried with length `k`, then `k + 1`, and so on;
      the group cannot grow past a newline. */
  function ExtractFrom(name: string, k: nat): (r: Option<string>)
    requires 1 <= k && k - 1 <= |name|
    requires NoNewline(name[..k - 1])
    ensures r.Some? ==> && k <= |r.value|
                        && r.value <= name
                        && BaseEndsAt(name, |r.value|)
                        && forall j :: k <= j < |r.value| ==> !BaseEndsAt(name, j)
    ensures r.None? ==> forall j :: k <= j ==> !BaseEndsAt(name, j)
    decreases |name| - k
  {
    if k + |AnchorSuffix| > |name| then None
    else if !IsRegexDot(name[k - 1]) then
      assert forall j :: k <= j ==> !BaseEndsAt(name, j) by {
        forall j | k <= j
          ensures !BaseEndsAt(name, j)
        {
          if j <= |name| {
            assert name[..j][k - 1] == name[k - 1];
          }
        }
      }
      None
    else if name[k..k + |AnchorSuffix|] == AnchorSuffix then
      assert name[..k] == name[..k - 1] + [name[k - 1]];
      Some(name[..k])
    else
      assert name[..k] == name[..k - 1] + [name[k - 1]];
      ExtractFrom(name, k + 1)
  }

  /** `retrieve_base_filename`: `None` stands for `re.match` returning `None`, on which
      `.group(1)` raises in compare_md5s.py. */
  function RetrieveBaseFilename(name: string): (r: Option<string>)
    ensures r.Some? <==> exists k :: BaseEndsAt(name, k)
    ensures r.Some? ==> && r.value <= name
                        && BaseEndsAt(name, |r.value|)
                        && forall j :: 1 <= j < |r.value| ==> !BaseEndsAt(name, j)
  {
    ExtractFrom(name, 1)
  }

  /** The extraction is exactly "the shortest admissible group": it returns `p` iff
      `name` starts with `p + ".mkv.videomd5"`, `p` is a non-empty newline-free
      string, and no shorter group qualifies. */
  lemma ExtractionIsShortestPrefix(name: string, p: string)
    ensures RetrieveBaseFilename(name) == Some(p) <==>
              && |p| >= 1 && NoNewline(p)
              && p + AnchorSuffix <= name
              && forall j :: 1 <= j < |p| ==> !BaseEndsAt(name, j)
  {
    var rhs := |p| >= 1 && NoNewline(p) && p + AnchorSuffix <= name
               && forall j :: 1 <= j < |p| ==> !BaseEndsAt(name, j);
    if rhs {
      assert name[..|p|] == p && name[|p|..|p| + |AnchorSuffix|] == AnchorSuffix;
      assert BaseEndsAt(name, |p|);
      var r := RetrieveBaseFilename(name);
      assert r.Some?;
      var q := r.value;
      assert BaseEndsAt(name, |q|);
      assert |q| == |p|;
      assert q == name[..|q|] == p;
    }
    if RetrieveBaseFilename(name) == Some(p) {
      assert BaseEndsAt(name, |p|);
      assert p == name[..|p|];
      assert |p| >= 1;
      assert NoNewline(p);
      assert forall j :: 1 <= j < |p| ==> !BaseEndsAt(name, j);
      assert name[..|p| + |AnchorSuffix|] == name[..|p|] + name[|p|..|p| + |AnchorSuffix|];
      assert p + AnchorSuffix == name[..|p| + |AnchorSuffix|];
    }
  }

  /** Occurrences of the suffix at index `i` inside `b + ".mkv.videomd5"` that overlap
      the appended suffix are impossible: no proper prefix of the suffix is also a
      suffix of it. */
  lemma AnchorSuffixHasNoBorder(d: nat)
    requires 1 <= d < |AnchorSuffix|
    ensures AnchorSuffix[d..] != AnchorSuffix[..|AnchorSuffix| - d]
  {
    assert AnchorSuffix[d] != AnchorSuffix[0] || AnchorSuffix[d + 1] != AnchorSuffix[1]
        || d + 1 == |AnchorSuffix|;
    if d + 1 == |AnchorSuffix| {
      assert AnchorSuffix[d..][0] != AnchorSuffix[..|AnchorSuffix| - d][0];
    } else if AnchorSuffix[d] != AnchorSuffix[0] {
      assert AnchorSuffix[d..][0] != AnchorSuffix[..|AnchorSuffix| - d][0];
    } else {
      assert AnchorSuffix[d..][1] != AnchorSuffix[..|AnchorSuffix| - d][1];
    }
  }

  /** A plain transfer name: non-empty, free of newlines, and without the anchor suffix
      at any index after the first. */
  ghost predicate PlainBase(b: string)
  {
    |b| >= 1 && NoNewline(b) && forall i :: 1 <= i ==> !Seqs.OccursAt(b, AnchorSuffix, i)
  }

  /** A transfer name that the discovery filter does not select on its own: non-empty,
      free of newlines, and with no filter match anywhere in it. */
  predicate UnfilteredBase(b: string)
  {
    |b| >= 1 && NoNewline(b) && !PassesAnchorFilter(b)
  }

  /** A plain base name comes back unchanged: extraction of `b + ".mkv.videomd5"`
      followed by any trailing text yields `b`. */
  lemma {:induction false} ExtractPlainName(b: string, rest: string)
    requires PlainBase(b)
    ensures RetrieveBaseFilename(b + AnchorSuffix + rest) == Some(b)
  {
    var name := b + AnchorSuffix + rest;
    assert b + AnchorSuffix <= name;
    forall j | 1 <= j < |b|
      ensures !BaseEndsAt(name, j)
    {
      var w := name[j..j + |AnchorSuffix|];
      if j + |AnchorSuffix| <= |b| {
        assert w == b[j..j + |AnchorSuffix|];
        assert !Seqs.OccursAt(b, AnchorSuffix, j);
      } else {
        var d := |b| - j;
        AnchorSuffixHasNoBorder(d);
        assert w[d..] == AnchorSuffix[..|AnchorSuffix| - d] by {
          forall m | 0 <= m < |AnchorSuffix| - d
            ensures w[d..][m] == AnchorSuffix[..|AnchorSuffix| - d][m]
          {
            assert w[d + m] == name[|b| + m];
          }
        }
        assert w[d..] != AnchorSuffix[d..];
      }
    }
    ExtractionIsShortestPrefix(name, b);
  }

  /** A literal occurrence of `.mkv.videomd5` is also a match of the unescaped filter. */
  lemma AnchorOccurrenceIsFilterMatch(f: string, i: int)
    ensures Seqs.OccursAt(f, AnchorSuffix, i) ==> FilterMatchesAt(f, i)
  {
    if Seqs.OccursAt(f, AnchorSuffix, i) {
      var w := f[i..i + PatternLength];
      assert w == AnchorSuffix;
      assert w[1..4] == "mkv" && w[5..] == "videomd5";
      assert f[i] == w[0] && f[i + 4] == w[4];
      assert forall m | 0 <= m < 3 :: f[i + 1..i + 4][m] == w[1..4][m];
      assert forall m | 0 <= m < 8 :: f[i + 5..i + PatternLength][m] == w[5..][m];
    }
  }

  /** Every name the extraction accepts also passes the discovery filter: the filter's
      match starts where the extracted group ends. */
  lemma ExtractionImpliesFilter(name: string)
    requires RetrieveBaseFilename(name).Some?
    ensures PassesAnchorFilter(name)
  {
    var k := |RetrieveBaseFilename(name).value|;
    AnchorOccurrenceIsFilterMatch(name, k);
    assert FilterMatchesAt(name, k);
  }

  /** Apart from its two dots, the filter demands the suffix's own letters: one wrong
      letter at offset `k` rules out a match at `i`. */
  lemma FilterNeedsLetterAt(f: string, i: int, k: int)
    ensures && 0 <= i && i + PatternLength <= |f|
            && 0 < k < PatternLength && k != 4 && f[i + k] != AnchorSuffix[k]
            ==> !FilterMatchesAt(f, i)
  {
    if 0 <= i && i + PatternLength <= |f| && 0 < k < PatternLength && k != 4 {
      if k < 4 {
        assert f[i + 1..i + 4][k - 1] == f[i + k];
      } else {
        assert f[i + 5..i + PatternLength][k - 5] == f[i + k];
      }
    }
  }

  /** A match that lies wholly inside a prefix `b` of `n` is a match in `b` and back. */
  lemma FilterMatchInPrefix(b: string, n: string, i: int)
    requires b <= n
    ensures 0 <= i && i + PatternLength <= |b| ==> (FilterMatchesAt(n, i) <==> FilterMatchesAt(b, i))
  {
    if 0 <= i && i + PatternLength <= |b| {
      assert forall j | 0 <= j < |b| :: n[j] == b[j];
      assert n[i + 1..i + 4] == b[i + 1..i + 4];
      assert n[i + 5..i + PatternLength] == b[i + 5..i + PatternLength];
    }
  }

  /** Appending text never removes a filter match: a name that passes keeps passing. */
  lemma FilterSurvivesAppending(b: string, t: string)
    ensures PassesAnchorFilter(b) ==> PassesAnchorFilter(b + t)
  {
    if PassesAnchorFilter(b) {
      var i :| FilterMatchesAt(b, i);
      FilterMatchInPrefix(b, b + t, i);
    }
  }

  /** The converse fails: the unescaped dots let a name through the filter that the
      extraction then rejects. */
  lemma FilterAdmitsUnextractableName()
    ensures PassesAnchorFilter("aXmkvYvideomd5")
    ensures RetrieveBaseFilename("aXmkvYvideomd5") == None
  {
    var f := "aXmkvYvideomd5";
    assert FilterMatchesAt(f, 1);
    assert f[1..14][0] != AnchorSuffix[0];
  }

  /** The filter is unanchored but still exact about the letters: a name whose last
      character is `4` instead of `5` is excluded. */
  lemma FilterExcludesOtherSuffix()
    ensures !PassesAnchorFilter("x.mkv.videomd4")
  {
    var f := "x.mkv.videomd4";
    assert f[1..4][0] != "mkv"[0];
    assert f[6..14][7] != "videomd5"[7];
    assert !FilterMatchesAt(f, 0) && !FilterMatchesAt(f, 1);
  }

  /** A name that is only the suffix has no non-empty group to extract. */
  lemma BareSuffixIsNotExtractable()
    ensures PassesAnchorFilter(AnchorSuffix)
    ensures RetrieveBaseFilename(AnchorSuffix) == None
  {
    assert FilterMatchesAt(AnchorSuffix, 0);
  }
}

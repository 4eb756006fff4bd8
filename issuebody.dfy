/** `scripts/process_issue.py`: pulls the article text out of an issue body and
    composes the body that puts an AI summary in front of it. */
module IssueBody {
  import opened Text
  import opened Wrappers

  /** The heading that introduces the article text in an issue body. */
  const Marker: string := "## 原文内容"

  /** What the new body puts before the summary, and between it and the old body. */
  const SummaryHeading: string := "# AI 总结\n"
  const Separator: string := "\n\n---\n"

  /** The labels every updated issue carries. */
  const Labels: seq<string> := ["rss-update", "processed"]

  /** `extract_content`: `None` when the body has no marker; otherwise the text
      after the first occurrence of the marker, stripped of whitespace. */
  function ExtractContent(body: string): (r: Option<string>)
    ensures r.None? <==> !Contains(body, Marker)
    ensures r.Some? ==> IsTrimmed(r.value)
  {
    var contentStart := Find(body, Marker);
    if contentStart == -1 then None
    else Some(Strip(body[contentStart + |Marker|..]))
  }

  /** The content is what follows the FIRST occurrence of the marker, stripped. */
  lemma ExtractContentAt(body: string, i: nat)
    requires OccursAt(body, Marker, i)
    requires forall k :: 0 <= k < i ==> !OccursAt(body, Marker, k)
    ensures ExtractContent(body) == Some(Strip(body[i + |Marker|..]))
  {
    FirstOccurrence(body, i);
  }

  /** The body `update_issue_with_summary` sends: the summary under its heading,
      a rule, then the original body unchanged. */
  function ComposeBody(summary: string, originalBody: string): (r: string)
    ensures |r| == |SummaryHeading| + |summary| + |Separator| + |originalBody|
    ensures r[|r| - |originalBody|..] == originalBody
    ensures r[|SummaryHeading|..|SummaryHeading| + |summary|] == summary
  {
    SummaryHeading + summary + Separator + originalBody
  }

  /** The PATCH request `update_issue_with_summary` sends: a new body and labels. */
  datatype IssueUpdate = IssueUpdate(body: string, labels: seq<string>)

  /** `process_issue` up to the request: with no content to summarise (no
      marker, or only whitespace after it) it stops before the summariser is
      asked; otherwise the summariser's answer for the content goes in front of
      the original body and the issue is relabelled. */
  function ProcessIssue(body: string, summarize: string -> string): (r: Option<IssueUpdate>)
    ensures r.None? <==> ExtractContent(body) == None || ExtractContent(body) == Some("")
    ensures r.Some? ==> r.value.labels == ["rss-update", "processed"]
    ensures r.Some? ==> r.value.body == ComposeBody(summarize(ExtractContent(body).value), body)
  {
    var content := ExtractContent(body);
    if content.None? || content.value == [] then None
    else
      var summary := summarize(content.value);
      Some(IssueUpdate(ComposeBody(summary, body), Labels))
  }

  /** A body whose first marker is its last few characters has empty content. */
  lemma MarkerAtEndIsEmpty(body: string)
    requires |body| >= |Marker| && OccursAt(body, Marker, |body| - |Marker|)
    requires forall k :: 0 <= k < |body| - |Marker| ==> !OccursAt(body, Marker, k)
    ensures ExtractContent(body) == Some("")
  {
    assert body[|body|..] == [];
  }

  /** The marker has no newline, no dash, and starts with `#` followed by `#`. */
  lemma MarkerShape()
    ensures |Marker| == 7 && Marker[0] == '#' && Marker[1] == '#'
    ensures forall j :: 0 <= j < |Marker| ==> Marker[j] != '\n' && Marker[j] != '-'
  {
  }

  /** No occurrence of the marker in the composed body starts before the
      original body, when the summary has none. */
  lemma NoMarkerBeforeOriginal(summary: string, originalBody: string, k: nat)
    requires !Contains(summary, Marker)
    requires k < |SummaryHeading| + |summary| + |Separator|
    ensures !OccursAt(ComposeBody(summary, originalBody), Marker, k)
  {
    var s := ComposeBody(summary, originalBody);
    var h := |SummaryHeading|;
    var e := h + |summary|;
    MarkerShape();
    if k + 7 <= |s| {
      var w := s[k..k + 7];
      if k == 0 {
        assert w[1] == ' ';
      } else if k < h {
        assert w[7 - k] == s[7] == '\n';
      } else if k + 7 <= e {
        assert w == summary[k - h..k - h + 7];
        assert !OccursAt(summary, Marker, k - h);
      } else if k < e {
        assert w[e - k] == s[e] == '\n';
      } else {
        assert w[0] == Separator[k - e];
      }
    }
  }

  /** Past a prefix of length `p`, the occurrences of the marker are those of
      the rest of the string, shifted by `p`. */
  lemma OccursShifted(s: string, p: nat, rest: string, k: nat)
    requires p <= |s| && s[p..] == rest
    ensures OccursAt(s, Marker, p + k) <==> OccursAt(rest, Marker, k)
  {
    if p + k + |Marker| <= |s| {
      assert rest[k..k + |Marker|] == s[p..][k..k + |Marker|];
      assert s[p..][k..k + |Marker|] == s[p + k..p + k + |Marker|];
    }
  }

  /** Summarising does not move the article text: when the summary does not
      itself contain the marker, the composed body yields the same content as
      the original body. */
  lemma ExtractComposed(summary: string, originalBody: string)
    requires !Contains(summary, Marker)
    ensures ExtractContent(ComposeBody(summary, originalBody)) == ExtractContent(originalBody)
  {
    var s := ComposeBody(summary, originalBody);
    var p := |SummaryHeading| + |summary| + |Separator|;
    forall k | 0 <= k < p
      ensures !OccursAt(s, Marker, k)
    {
      NoMarkerBeforeOriginal(summary, originalBody, k);
    }
    assert s[p..] == originalBody;
    ExtractAfterPrefix(s, p);
  }

  /** A prefix in which no occurrence of the marker starts does not change the
      content: it is the content of what follows the prefix. */
  lemma ExtractAfterPrefix(s: string, p: nat)
    requires p <= |s|
    requires forall k :: 0 <= k < p ==> !OccursAt(s, Marker, k)
    ensures ExtractContent(s) == ExtractContent(s[p..])
  {
    FindAfterPrefix(s, p);
    var i := Find(s[p..], Marker);
    if i != -1 {
      ShiftedSuffix(s, p, i, Find(s, Marker));
    }
  }

  /** What follows the marker found at `j = p + i` in `s` is what follows the
      one found at `i` in `s[p..]`. */
  lemma ShiftedSuffix(s: string, p: nat, i: nat, j: nat)
    requires j == p + i && j + |Marker| <= |s|
    ensures s[j + |Marker|..] == s[p..][i + |Marker|..]
  {
    assert s[p..][i + |Marker|..] == s[p + i + |Marker|..];
  }

  /** Past a prefix in which no occurrence of the marker starts, the first
      occurrence is the first one of the rest, shifted by the prefix. */
  lemma FindAfterPrefix(s: string, p: nat)
    requires p <= |s|
    requires forall k :: 0 <= k < p ==> !OccursAt(s, Marker, k)
    ensures Find(s[p..], Marker) >= 0 ==> Find(s[p..], Marker) + |Marker| <= |s| - p
    ensures Find(s, Marker) == if Find(s[p..], Marker) == -1 then -1 else p + Find(s[p..], Marker)
  {
    var rest := s[p..];
    var i := Find(rest, Marker);
    if i == -1 {
      forall k | 0 <= k <= |s|
        ensures !OccursAt(s, Marker, k)
      {
        if k >= p {
          OccursShifted(s, p, rest, k - p);
        }
      }
    } else {
      assert OccursAt(rest, Marker, i);
      OccursShifted(s, p, rest, i);
      forall k | 0 <= k < p + i
        ensures !OccursAt(s, Marker, k)
      {
        if k >= p {
          OccursShifted(s, p, rest, k - p);
        }
      }
      FirstOccurrence(s, p + i);
    }
  }

  /** An occurrence of the marker with none before it is what `Find` returns. */
  lemma FirstOccurrence(s: string, i: nat)
    requires i <= |s| && OccursAt(s, Marker, i)
    requires forall k :: 0 <= k < i ==> !OccursAt(s, Marker, k)
    ensures Find(s, Marker) == i
  {
    var f := Find(s, Marker);
    assert f != -1;
  }

  /** Processing an issue that was already processed finds the same content,
      as long as the summary does not quote the marker. */
  lemma ReprocessFindsSameContent(body: string, summarize: string -> string)
    requires ProcessIssue(body, summarize).Some?
    requires !Contains(summarize(ExtractContent(body).value), Marker)
    ensures ExtractContent(ProcessIssue(body, summarize).value.body) == ExtractContent(body)
  {
    ExtractComposed(summarize(ExtractContent(body).value), body);
  }
}

/** The success screen: the confirmation header and the welcome letter with
    its two link placeholders filled in. */
module SuccessScreen {
  import opened Types
  import opened Text

  const WebsiteToken: string := "[系所官網]"
  const ApplyToken: string := "[申請連結]"
  const HeaderPrefix: string := "我們已將歡迎信發送至 "

  /** The letter as displayed: the first website placeholder replaced, then
      the first application-link placeholder; nothing at all when the record
      has no letter. */
  function RenderLetter(record: StudentRecord): (r: Option<string>)
    ensures r.None? <==> record.personalizedLetter.None?
  {
    match record.personalizedLetter
    case None => None
    case Some(letter) =>
      Some(ReplaceFirst(ReplaceFirst(letter, WebsiteToken, DeptWebsite), ApplyToken, ApplyUrl))
  }

  /** The confirmation line, naming the address the letter went to. */
  function HeaderText(record: StudentRecord): (r: string)
    ensures StartsWith(r, HeaderPrefix) && r[|HeaderPrefix|..] == record.email
  {
    HeaderPrefix + record.email
  }

  lemma HeaderShowsEmail(record: StudentRecord)
    ensures Contains(HeaderText(record), record.email)
  {
    var h := HeaderText(record);
    assert h[|HeaderPrefix|..|HeaderPrefix| + |record.email|] == record.email;
    assert OccursAt(h, record.email, |HeaderPrefix|);
  }

  /** A letter without placeholders is shown as it is. */
  lemma NoTokensUnchanged(record: StudentRecord)
    requires record.personalizedLetter.Some?
    requires !Contains(record.personalizedLetter.value, WebsiteToken)
    requires !Contains(record.personalizedLetter.value, ApplyToken)
    ensures RenderLetter(record) == record.personalizedLetter
  {
  }

  /** The configured website address shares no character with the
      application-link placeholder. */
  lemma WebsiteAvoidsApplyToken()
    ensures forall c :: c in DeptWebsite ==> c !in ApplyToken
  {
    var parts := ["https://", "abc-dept", ".univers", "ity.edu"];
    assert DeptWebsite == parts[0] + parts[1] + parts[2] + parts[3];
    PlainAvoidsApplyToken(parts[0]);
    PlainAvoidsApplyToken(parts[1]);
    PlainAvoidsApplyToken(parts[2]);
    PlainAvoidsApplyToken(parts[3]);
  }

  /** Text of ASCII characters other than brackets shares no character with
      the application-link placeholder. */
  lemma PlainAvoidsApplyToken(s: string)
    requires forall i :: 0 <= i < |s| ==> s[i] as int < 128 && s[i] != '[' && s[i] != ']'
    ensures forall c :: c in s ==> c !in ApplyToken
  {
    forall c | c in s ensures c !in ApplyToken {
      var i :| 0 <= i < |s| && s[i] == c;
    }
  }

  /** With only the website placeholder present, the letter grows by the
      difference between the address and the placeholder. */
  lemma OnlyWebsiteToken(record: StudentRecord)
    requires record.personalizedLetter.Some?
    requires Contains(record.personalizedLetter.value, WebsiteToken)
    requires !Contains(record.personalizedLetter.value, ApplyToken)
    ensures RenderLetter(record).Some?
    ensures var l := record.personalizedLetter.value;
      && RenderLetter(record).value == ReplaceFirst(l, WebsiteToken, DeptWebsite)
      && |RenderLetter(record).value| == |l| - |WebsiteToken| + |DeptWebsite|
  {
    var l := record.personalizedLetter.value;
    WebsiteAvoidsApplyToken();
    ReplaceFirstNoNewOccurrence(l, WebsiteToken, DeptWebsite, ApplyToken);
  }

  /** With only the application-link placeholder present, the letter grows by
      the difference between the link and the placeholder. */
  lemma OnlyApplyToken(record: StudentRecord)
    requires record.personalizedLetter.Some?
    requires !Contains(record.personalizedLetter.value, WebsiteToken)
    requires Contains(record.personalizedLetter.value, ApplyToken)
    ensures RenderLetter(record).Some?
    ensures var l := record.personalizedLetter.value;
      && RenderLetter(record).value == ReplaceFirst(l, ApplyToken, ApplyUrl)
      && |RenderLetter(record).value| == |l| - |ApplyToken| + |ApplyUrl|
  {
  }

  /** An application-link placeholder cannot start inside a website
      placeholder, nor at the same index. */
  lemma WebsiteTokenNotInsideApplyToken(u: string, k: nat, j: nat)
    requires OccursAt(u, ApplyToken, k) && k <= j < k + |ApplyToken|
    ensures !OccursAt(u, WebsiteToken, j)
  {
    if j + |WebsiteToken| <= |u| {
      if j == k {
        assert u[j..j + |WebsiteToken|] == ApplyToken;
      } else {
        assert u[j] == ApplyToken[j - k] by {
          assert u[k..k + |ApplyToken|][j - k] == u[j];
        }
        assert ApplyToken[j - k] != '[';
        assert u[j..j + |WebsiteToken|][0] != WebsiteToken[0];
      }
    }
  }

  lemma ApplyTokenNotInsideWebsiteToken(u: string, k: nat, j: nat)
    requires OccursAt(u, ApplyToken, k) && j < k < j + |WebsiteToken|
    ensures !OccursAt(u, WebsiteToken, j)
  {
    if j + |WebsiteToken| <= |u| {
      OccursAtHead(u, ApplyToken, k);
      assert WebsiteToken[k - j] != '[';
      assert u[j..j + |WebsiteToken|][k - j] == u[k];
    }
  }

  /** The two placeholders never overlap. */
  lemma TokensDisjoint(u: string, k: nat, j: nat)
    requires OccursAt(u, ApplyToken, k)
    ensures OccursAt(u, WebsiteToken, j) ==> k + |ApplyToken| <= j || j + |WebsiteToken| <= k
  {
    if k <= j < k + |ApplyToken| {
      WebsiteTokenNotInsideApplyToken(u, k, j);
    } else if j < k < j + |WebsiteToken| {
      ApplyTokenNotInsideWebsiteToken(u, k, j);
    }
  }

  /** Only the first website placeholder is filled in: a later one is still
      in the displayed letter. */
  lemma LaterWebsiteTokenRemains(record: StudentRecord, j: nat)
    requires record.personalizedLetter.Some?
    requires IndexOf(record.personalizedLetter.value, WebsiteToken).Some?
    requires OccursAt(record.personalizedLetter.value, WebsiteToken, j)
    requires j >= IndexOf(record.personalizedLetter.value, WebsiteToken).value + |WebsiteToken|
    ensures RenderLetter(record).Some? && Contains(RenderLetter(record).value, WebsiteToken)
  {
    var l := record.personalizedLetter.value;
    var u := ReplaceFirst(l, WebsiteToken, DeptWebsite);
    var j' := j - |WebsiteToken| + |DeptWebsite|;
    ReplaceFirstKeepsAfter(l, WebsiteToken, DeptWebsite, WebsiteToken, j);
    assert OccursAt(u, WebsiteToken, j');
    match IndexOf(u, ApplyToken)
    case None =>
    case Some(k) =>
      TokensDisjoint(u, k, j');
      var v := ReplaceFirst(u, ApplyToken, ApplyUrl);
      if j' + |WebsiteToken| <= k {
        ReplaceFirstKeepsBefore(u, ApplyToken, ApplyUrl, WebsiteToken, j');
        assert OccursAt(v, WebsiteToken, j');
      } else {
        ReplaceFirstKeepsAfter(u, ApplyToken, ApplyUrl, WebsiteToken, j');
        assert OccursAt(v, WebsiteToken, j' - |ApplyToken| + |ApplyUrl|);
      }
  }

  /** Any letter with both placeholders: the first website placeholder and
      the first application-link placeholder are each replaced where they
      stand, in whichever order they occur, and the rest of the letter is
      kept. */
  lemma FirstPlaceholdersFilled(record: StudentRecord, i: nat, k: nat)
    requires record.personalizedLetter.Some?
    requires IndexOf(record.personalizedLetter.value, WebsiteToken) == Some(i)
    requires IndexOf(record.personalizedLetter.value, ApplyToken) == Some(k)
    ensures i + |WebsiteToken| <= k || k + |ApplyToken| <= i
    ensures var l := record.personalizedLetter.value;
      i < k ==> (RenderLetter(record) ==
        Some(l[..i] + DeptWebsite + l[i + |WebsiteToken|..k] + ApplyUrl + l[k + |ApplyToken|..]))
    ensures var l := record.personalizedLetter.value;
      k < i ==> (RenderLetter(record) ==
        Some(l[..k] + ApplyUrl + l[k + |ApplyToken|..i] + DeptWebsite + l[i + |WebsiteToken|..]))
  {
    FillBoth(record.personalizedLetter.value, i, k);
  }

  /** [FirstPlaceholdersFilled] for the letter text, at the two first
      occurrences. */
  lemma FillBoth(l: string, i: nat, k: nat)
    requires IndexOf(l, WebsiteToken) == Some(i) && IndexOf(l, ApplyToken) == Some(k)
    ensures i + |WebsiteToken| <= k || k + |ApplyToken| <= i
    ensures i < k ==> (ReplaceFirst(ReplaceFirst(l, WebsiteToken, DeptWebsite), ApplyToken, ApplyUrl)
      == l[..i] + DeptWebsite + l[i + |WebsiteToken|..k] + ApplyUrl + l[k + |ApplyToken|..])
    ensures k < i ==> (ReplaceFirst(ReplaceFirst(l, WebsiteToken, DeptWebsite), ApplyToken, ApplyUrl)
      == l[..k] + ApplyUrl + l[k + |ApplyToken|..i] + DeptWebsite + l[i + |WebsiteToken|..])
  {
    TokensDisjoint(l, k, i);
    WebsiteAvoidsApplyToken();
    ReplaceFirstTwice(l, WebsiteToken, DeptWebsite, ApplyToken, ApplyUrl, i, k);
  }

  /** A placeholder preceded by text without `[` is the first occurrence,
      so exactly it is replaced. */
  lemma ReplaceAfterBracketFree(pre: string, p: string, post: string, rep: string)
    requires '[' !in pre && |p| > 0 && p[0] == '['
    ensures ReplaceFirst(pre + p + post, p, rep) == pre + rep + post
  {
    var l := pre + p + post;
    forall j | 0 <= j < |pre| ensures !OccursAt(l, p, j) {
      assert l[j] == pre[j];
      if j + |p| <= |l| { assert l[j..j + |p|][0] == l[j]; }
    }
    assert l[|pre|..|pre| + |p|] == p;
    IndexOfFirst(l, p, |pre|);
    assert l[..|pre|] == pre;
    assert l[|pre| + |p|..] == post;
  }

  /** A letter with one website placeholder and, after it, one
      application-link placeholder, with no `[` in the text before each,
      is shown with both links filled in and the rest unchanged. */
  lemma BothPlaceholdersFilled(record: StudentRecord, a: string, b: string, c: string)
    requires record.personalizedLetter == Some(a + WebsiteToken + b + ApplyToken + c)
    requires '[' !in a && '[' !in b
    ensures RenderLetter(record) == Some(a + DeptWebsite + b + ApplyUrl + c)
  {
    assert a + WebsiteToken + b + ApplyToken + c == a + WebsiteToken + (b + ApplyToken + c);
    ReplaceAfterBracketFree(a, WebsiteToken, b + ApplyToken + c, DeptWebsite);
    WebsiteAvoidsApplyToken();
    assert '[' in ApplyToken;
    assert '[' !in DeptWebsite;
    var pre := a + DeptWebsite + b;
    assert a + DeptWebsite + (b + ApplyToken + c) == pre + ApplyToken + c;
    ReplaceAfterBracketFree(pre, ApplyToken, c, ApplyUrl);
  }

  /** The letter of a concrete record: both placeholders are filled in. */
  lemma ExampleLetter(record: StudentRecord)
    requires record.personalizedLetter == Some("Hi " + WebsiteToken + " " + ApplyToken)
    ensures RenderLetter(record) == Some("Hi " + DeptWebsite + " " + ApplyUrl)
  {
    assert "Hi " + WebsiteToken + " " + ApplyToken == "Hi " + WebsiteToken + " " + ApplyToken + "";
    BothPlaceholdersFilled(record, "Hi ", " ", "");
    assert "Hi " + DeptWebsite + " " + ApplyUrl + "" == "Hi " + DeptWebsite + " " + ApplyUrl;
  }
}

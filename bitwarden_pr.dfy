/** The `bitwarden-pr` command: from the git working copy it works out which
    Bitwarden repository it is in, reads the branch, finds the ticket named in
    the branch, fills the tracking section of the pull-request template with a
    Jira link, and opens GitHub's "compare" page with the title and body
    already filled in.

    Everything the command asks of the outside world (the repository found by
    `Repository::discover`, its `origin` remote, its head, the template file,
    URL parsing and the `open` launcher) arrives here as a value. */
module BitwardenPr {
  import opened Text
  import opened RustStr
  import opened Errors

  const ClientsUrl: string := "https://github.com/bitwarden/clients"
  const ServerUrl: string := "https://github.com/bitwarden/server"
  const SdkUrl: string := "https://github.com/bitwarden/sdk-internal"

  /** The heading of the template's tracking section, ticket emoji included. */
  const TrackingHeading: string := "## \U{1F39F}\U{FE0F} Tracking\n\n"

  /** The tracking section as the template ships it: heading plus placeholder comment. */
  const TemplateTrackingHeader: string :=
    TrackingHeading + "<!-- Paste the link to the Jira or GitHub issue or otherwise describe / point to where this change is coming from. -->"

  const BaseJiraUrl: string := "https://bitwarden.atlassian.net/browse/"

  // ----- Which repository -----

  /** What `find_remote("origin")` gives: `None` when there is no such remote,
      otherwise a remote whose `url()` is `None` when it is not valid UTF-8. */
  datatype Remote = Remote(url: Option<string>)

  predicate IsBitwardenUrl(u: string) { u == ClientsUrl || u == ServerUrl || u == SdkUrl }

  /** `get_bitwarden_repo`: the first of the three repository names found in
      the origin URL decides the answer. */
  function GetBitwardenRepo(origin: Option<Remote>): (r: Option<string>)
    ensures r.Some? ==> IsBitwardenUrl(r.value)
    ensures r.Some? ==> origin.Some? && origin.value.url.Some?
  {
    if origin.None? || origin.value.url.None? then None
    else
      var url := origin.value.url.value;
      if Contains(url, "bitwarden/clients") then Some(ClientsUrl)
      else if Contains(url, "bitwarden/server") then Some(ServerUrl)
      else if Contains(url, "bitwarden/sdk-internal") then Some(SdkUrl)
      else None
  }

  ghost predicate Mentions(url: string, name: string) { exists i: nat :: OccursAt(url, i, name) }

  /** The classification, checked in order with the first match winning, stated
      through occurrences of each name anywhere in the URL. */
  lemma GetBitwardenRepoOrder(url: string)
    ensures var r := GetBitwardenRepo(Some(Remote(Some(url))));
      && (r == Some(ClientsUrl) <==> Mentions(url, "bitwarden/clients"))
      && (r == Some(ServerUrl) <==> !Mentions(url, "bitwarden/clients") && Mentions(url, "bitwarden/server"))
      && (r == Some(SdkUrl) <==>
            !Mentions(url, "bitwarden/clients") && !Mentions(url, "bitwarden/server")
            && Mentions(url, "bitwarden/sdk-internal"))
      && (r.None? <==>
            !Mentions(url, "bitwarden/clients") && !Mentions(url, "bitwarden/server")
            && !Mentions(url, "bitwarden/sdk-internal"))
  {
    ContainsIff(url, "bitwarden/clients");
    ContainsIff(url, "bitwarden/server");
    ContainsIff(url, "bitwarden/sdk-internal");
    assert |ClientsUrl| != |ServerUrl| && |ClientsUrl| != |SdkUrl| && |ServerUrl| != |SdkUrl|;
  }

  /** Without an `origin` remote, or with one whose URL cannot be read, the
      repository is not recognised. */
  lemma GetBitwardenRepoMissing(origin: Option<Remote>)
    requires origin.None? || origin.value.url.None?
    ensures GetBitwardenRepo(origin).None?
  {
  }

  /** Any remote URL that mentions the clients repository selects it. */
  lemma ClientsRemote(before: string, after: string)
    ensures GetBitwardenRepo(Some(Remote(Some(before + "bitwarden/clients" + after)))) == Some(ClientsUrl)
  {
    OccursBetween(before, "bitwarden/clients", after);
    ContainsIff(before + "bitwarden/clients" + after, "bitwarden/clients");
  }

  /** An SSH remote of the clients repository. */
  lemma GetBitwardenRepoExample()
    ensures GetBitwardenRepo(Some(Remote(Some("git@github.com:bitwarden/clients.git")))) == Some(ClientsUrl)
  {
    assert "git@github.com:" + "bitwarden/clients" + ".git" == "git@github.com:bitwarden/clients.git";
    ClientsRemote("git@github.com:", ".git");
  }

  // ----- The branch -----

  /** What `repo.head()` gives: a failure with its message, or a reference
      whose `shorthand()` is `None` when the name is not valid UTF-8. */
  datatype HeadLookup = HeadError(message: string) | Head(shorthand: Option<string>)

  /** `get_branch_name`. */
  function GetBranchName(head: HeadLookup): (r: Result<string>)
    ensures head.HeadError? ==>
      r == Err(ErrorWithContext("Unable to retrieve git head", Some(head.message)))
    ensures head.Head? && head.shorthand.None? ==>
      r == Err(ErrorWithContext("Error getting branch shorthand name", None))
    ensures r.Ok? <==> head.Head? && head.shorthand.Some?
    ensures r.Ok? ==> r.value == head.shorthand.value
  {
    match head
    case HeadError(message) => Err(ErrorWithContext("Unable to retrieve git head", Some(message)))
    case Head(None) => Err(ErrorWithContext("Error getting branch shorthand name", None))
    case Head(Some(name)) => Ok(name)
  }

  // ----- The ticket -----

  /** The pattern `/[A-Za-z]{2}-[0-9]{1,5}/` matches `s` at index `i` with
      `k` digits. */
  predicate TicketAt(s: string, i: nat, k: nat)
  {
    && 1 <= k <= 5 && i + k + 5 <= |s|
    && s[i] == '/' && IsAsciiLetter(s[i + 1]) && IsAsciiLetter(s[i + 2]) && s[i + 3] == '-'
    && (forall j :: i + 4 <= j < i + 4 + k ==> IsDigit(s[j]))
    && s[i + 4 + k] == '/'
  }

  /** A match has as many digits as the digit run after the `-`: the closing
      `/` is no digit, so the match at a position is unique. */
  lemma TicketAtRun(s: string, i: nat, k: nat)
    requires TicketAt(s, i, k)
    ensures k == DigitRun(s[i + 4..])
  {
    var t := s[i + 4..];
    assert t[k] == s[i + 4 + k];
  }

  /** The number of digits of the match at `i`, if the pattern matches there. */
  function MatchAt(s: string, i: nat): (r: Option<nat>)
    requires i <= |s|
    ensures r.Some? ==> TicketAt(s, i, r.value)
    ensures r.None? ==> forall k: nat :: !TicketAt(s, i, k)
  {
    if i + 4 <= |s| && s[i] == '/' && IsAsciiLetter(s[i + 1]) && IsAsciiLetter(s[i + 2]) && s[i + 3] == '-' then
      var k := DigitRun(s[i + 4..]);
      assert forall j :: i + 4 <= j < i + 4 + k ==> s[j] == s[i + 4..][j - i - 4];
      if 1 <= k <= 5 && i + 4 + k < |s| && s[i + 4 + k] == '/' then Some(k)
      else
        assert forall k': nat :: TicketAt(s, i, k') ==> k' == k by {
          forall k': nat | TicketAt(s, i, k') { TicketAtRun(s, i, k'); }
        }
        None
    else None
  }

  /** The leftmost match at or after `from`, as its start and its digit count. */
  function FindTicket(s: string, from: nat): (r: Option<(nat, nat)>)
    requires from <= |s|
    ensures r.Some? ==> from <= r.value.0 && TicketAt(s, r.value.0, r.value.1)
    ensures r.Some? ==> forall j: nat, k: nat :: from <= j < r.value.0 ==> !TicketAt(s, j, k)
    ensures r.None? ==> forall j: nat, k: nat :: from <= j ==> !TicketAt(s, j, k)
    decreases |s| - from
  {
    match MatchAt(s, from)
    case Some(k) => Some((from, k))
    case None => if from == |s| then None else FindTicket(s, from + 1)
  }

  /** `get_ticket_from_branch`: the leftmost match, upper-cased, with its
      slashes removed. The pattern is a constant that compiles, so
      `Regex::new` never fails. */
  function GetTicketFromBranch(branch: string): Option<string>
  {
    match FindTicket(branch, 0)
    case None => None
    case Some((i, k)) => Some(ReplaceAll(AsciiUppercase(branch[i..i + k + 5]), "/", ""))
  }

  /** What a ticket looks like: two upper-case letters, `-`, one to five digits. */
  predicate IsTicket(t: string)
  {
    && 4 <= |t| <= 8
    && IsAsciiUpper(t[0]) && IsAsciiUpper(t[1]) && t[2] == '-'
    && forall j :: 3 <= j < |t| ==> IsDigit(t[j])
  }

  /** A ticket is found exactly when the pattern matches somewhere. */
  lemma TicketFoundIff(branch: string)
    ensures GetTicketFromBranch(branch).Some? <==> exists i: nat, k: nat :: TicketAt(branch, i, k)
  {
    if GetTicketFromBranch(branch).Some? {
      var (i, k) := FindTicket(branch, 0).value;
      assert TicketAt(branch, i, k);
    }
  }

  /** Once the search has passed every position before a match, it reports
      that match. */
  lemma {:induction false} FindTicketAt(s: string, from: nat, i: nat, k: nat)
    requires from <= i && TicketAt(s, i, k)
    requires forall j: nat, k': nat :: from <= j < i ==> !TicketAt(s, j, k')
    ensures FindTicket(s, from) == Some((i, k))
    decreases i - from
  {
    if from == i {
      TicketAtRun(s, i, k);
      assert MatchAt(s, from).Some?;
      TicketAtRun(s, i, MatchAt(s, from).value);
    } else {
      FindTicketAt(s, from + 1, i, k);
    }
  }

  /** Removing the slashes from text enclosed in two slashes, with none
      inside, leaves the inside. */
  lemma RemoveEnclosingSlashes(mid: string)
    requires NoneOf(mid, '/')
    ensures ReplaceAll("/" + mid + "/", "/", "") == mid
  {
    ReplaceCharConcat("/" + mid, "/", "/", "");
    ReplaceCharConcat("/", mid, "/", "");
    RemoveSole("/", "/");
    RemoveAbsent(mid, "/", "");
  }

  /** Upper-casing keeps the enclosing slashes and upper-cases the inside. */
  lemma UppercaseEnclosed(inner: string)
    ensures AsciiUppercase("/" + inner + "/") == "/" + AsciiUppercase(inner) + "/"
  {
    var u := AsciiUppercase("/" + inner + "/");
    var v := "/" + AsciiUppercase(inner) + "/";
    assert |u| == |v|;
    forall j | 0 <= j < |u|
      ensures u[j] == v[j]
    {
      if 1 <= j < |u| - 1 {
        assert ("/" + inner + "/")[j] == inner[j - 1];
      }
    }
  }

  lemma UppercaseKeepsNoSlash(s: string)
    requires NoneOf(s, '/')
    ensures NoneOf(AsciiUppercase(s), '/')
  {
  }

  /** A match is its inside, which holds no slash, between two slashes. */
  lemma MatchEnclosed(s: string, i: nat, k: nat)
    requires TicketAt(s, i, k)
    ensures s[i..i + k + 5] == "/" + s[i + 1..i + k + 4] + "/"
    ensures NoneOf(s[i + 1..i + k + 4], '/')
  {
    var inner := s[i + 1..i + k + 4];
    forall j | 0 <= j < |inner|
      ensures inner[j] != '/'
    {
      assert inner[j] == s[i + 1 + j];
    }
    assert s[i..i + k + 5] == [s[i]] + inner + [s[i + k + 4]];
  }

  /** Upper-casing the match and removing its two slashes leaves the
      upper-cased text between them. */
  lemma StripTicketSlashes(s: string, i: nat, k: nat)
    requires TicketAt(s, i, k)
    ensures ReplaceAll(AsciiUppercase(s[i..i + k + 5]), "/", "") == AsciiUppercase(s[i + 1..i + k + 4])
  {
    var inner := s[i + 1..i + k + 4];
    MatchEnclosed(s, i, k);
    UppercaseKeepsNoSlash(inner);
    UppercaseEnclosed(inner);
    RemoveEnclosingSlashes(AsciiUppercase(inner));
  }

  /** The ticket is the text between the slashes of the leftmost match,
      upper-cased. */
  lemma TicketOfMatch(branch: string, i: nat, k: nat)
    requires FindTicket(branch, 0) == Some((i, k))
    ensures GetTicketFromBranch(branch) == Some(AsciiUppercase(branch[i + 1..i + k + 4]))
  {
    StripTicketSlashes(branch, i, k);
  }

  /** Every ticket found has the ticket shape. */
  lemma TicketShape(branch: string)
    requires GetTicketFromBranch(branch).Some?
    ensures IsTicket(GetTicketFromBranch(branch).value)
  {
    var (i, k) := FindTicket(branch, 0).value;
    TicketOfMatch(branch, i, k);
    var t := AsciiUppercase(branch[i + 1..i + k + 4]);
    assert forall j :: 0 <= j < |t| ==> t[j] == AsciiUpper(branch[i + 1 + j]);
  }

  /** The ticket is taken from the leftmost match, whatever matches follow it. */
  lemma TicketIsLeftmost(branch: string, i: nat, k: nat)
    requires TicketAt(branch, i, k)
    requires forall j: nat, k': nat :: j < i ==> !TicketAt(branch, j, k')
    ensures GetTicketFromBranch(branch) == Some(AsciiUppercase(branch[i + 1..i + k + 4]))
  {
    FindTicketAt(branch, 0, i, k);
    TicketOfMatch(branch, i, k);
  }

  /** Without a slash there is no ticket. */
  lemma NoSlashNoTicket(branch: string)
    requires NoneOf(branch, '/')
    ensures GetTicketFromBranch(branch).None?
  {
    TicketFoundIff(branch);
  }

  /** A branch with one ticket between slashes, and no slash before it,
      names that ticket, upper-cased. */
  lemma TicketInBranch(pre: string, letters: string, digits: string, post: string)
    requires NoneOf(pre, '/')
    requires |letters| == 2 && IsAsciiLetter(letters[0]) && IsAsciiLetter(letters[1])
    requires 1 <= |digits| <= 5 && AllDigits(digits)
    ensures GetTicketFromBranch(pre + "/" + letters + "-" + digits + "/" + post)
      == Some(AsciiUppercase(letters + "-" + digits))
  {
    var s := pre + "/" + letters + "-" + digits + "/" + post;
    TicketAtSpelled(pre, letters, digits, post);
    forall j: nat, k': nat | j < |pre|
      ensures !TicketAt(s, j, k')
    {
      assert s[j] == pre[j];
    }
    TicketIsLeftmost(s, |pre|, |digits|);
  }

  /** The pattern matches where the ticket spelled out in a branch starts. */
  lemma TicketAtSpelled(pre: string, letters: string, digits: string, post: string)
    requires |letters| == 2 && IsAsciiLetter(letters[0]) && IsAsciiLetter(letters[1])
    requires 1 <= |digits| <= 5 && AllDigits(digits)
    ensures var s := pre + "/" + letters + "-" + digits + "/" + post;
      && TicketAt(s, |pre|, |digits|)
      && s[|pre| + 1..|pre| + |digits| + 4] == letters + "-" + digits
  {
    var s := pre + "/" + letters + "-" + digits + "/" + post;
    var i := |pre|;
    var k := |digits|;
    assert s[i] == '/' && s[i + 1] == letters[0] && s[i + 2] == letters[1] && s[i + 3] == '-';
    assert forall j :: i + 4 <= j < i + 4 + k ==> s[j] == digits[j - i - 4];
    assert s[i + 4 + k] == '/';
    assert s[i + 1..i + k + 4] == letters + "-" + digits;
  }

  lemma TicketExample()
    ensures GetTicketFromBranch("feature/AB-1234/add-thing") == Some("AB-1234")
  {
    assert "feature" + "/" + "AB" + "-" + "1234" + "/" + "add-thing" == "feature/AB-1234/add-thing";
    assert AsciiUppercase("AB" + "-" + "1234") == "AB-1234" by {
      assert "AB" + "-" + "1234" == "AB-1234";
      AsciiUppercaseKeeps("AB-1234");
    }
    TicketInBranch("feature", "AB", "1234", "add-thing");
  }

  lemma LowerCaseTicketExample()
    ensures GetTicketFromBranch("fix/pm-42/typo") == Some("PM-42")
  {
    assert "fix" + "/" + "pm" + "-" + "42" + "/" + "typo" == "fix/pm-42/typo";
    assert AsciiUppercase("pm" + "-" + "42") == "PM-42" by {
      var u := AsciiUppercase("pm" + "-" + "42");
      assert u[0] == 'P' && u[1] == 'M' && u[2] == '-' && u[3] == '4' && u[4] == '2';
    }
    TicketInBranch("fix", "pm", "42", "typo");
  }

  lemma NoTicketExamples()
    ensures GetTicketFromBranch("main").None?
    ensures GetTicketFromBranch("AB-1234").None?
  {
    NoSlashNoTicket("main");
    NoSlashNoTicket("AB-1234");
  }

  /** Six digits or more are too many, even with slashes on both sides. */
  lemma TooManyDigitsNoTicket(pre: string, letters: string, digits: string, post: string)
    requires NoneOf(pre, '/') && NoneOf(post, '/')
    requires |letters| == 2 && IsAsciiLetter(letters[0]) && IsAsciiLetter(letters[1])
    requires |digits| >= 6 && AllDigits(digits)
    ensures GetTicketFromBranch(pre + "/" + letters + "-" + digits + "/" + post).None?
  {
    var s := pre + "/" + letters + "-" + digits + "/" + post;
    var p := |pre|;
    var q := p + 4 + |digits|;
    forall j: nat, k: nat
      ensures !TicketAt(s, j, k)
    {
      if j < p {
        assert s[j] == pre[j];
      } else if j == p {
        assert s[j + 4..] == digits + ("/" + post);
        DigitRunOfDigits(digits, "/" + post);
        if TicketAt(s, j, k) {
          TicketAtRun(s, j, k);
        }
      } else if j < q {
        assert j <= p + 2 ==> s[j] == letters[j - p - 1];
        assert p + 4 <= j ==> s[j] == digits[j - p - 4];
      } else if j == q {
        assert j + 4 + k < |s| ==> s[j + 4 + k] == post[j + 3 + k - q];
      } else if j < |s| {
        assert s[j] == post[j - q - 1];
      }
    }
    TicketFoundIff(s);
  }

  lemma SixDigitsExample()
    ensures GetTicketFromBranch("feature/AB-123456/x").None?
  {
    assert "feature" + "/" + "AB" + "-" + "123456" + "/" + "x" == "feature/AB-123456/x";
    TooManyDigitsNoTicket("feature", "AB", "123456", "x");
  }

  // ----- Title and description -----

  /** The title: the ticket in square brackets. */
  function PrTitle(ticket: string): (t: string)
    ensures |t| == |ticket| + 2 && t[0] == '[' && t[|t| - 1] == ']'
    ensures forall j :: 0 <= j < |ticket| ==> t[j + 1] == ticket[j]
  {
    "[" + ticket + "]"
  }

  /** The Markdown link to the ticket in Jira. */
  function JiraLinkMarkdown(ticket: string): string
  {
    "[" + ticket + "](" + BaseJiraUrl + ticket + ")"
  }

  /** What each tracking section of the template becomes. */
  function TrackingSection(ticket: string): string
  {
    TrackingHeading + JiraLinkMarkdown(ticket)
  }

  /** `create_pr_description`, with the template's text given. */
  function CreatePrDescription(template: string, ticket: string): string
  {
    ReplaceAll(template, TemplateTrackingHeader, TrackingSection(ticket))
  }

  /** A template without the tracking section comes back unchanged. */
  lemma DescriptionWithoutHeader(template: string, ticket: string)
    requires !Contains(template, TemplateTrackingHeader)
    ensures CreatePrDescription(template, ticket) == template
  {
    ReplaceAllAbsent(template, TemplateTrackingHeader, TrackingSection(ticket));
  }

  /** At the first tracking section the text before it is kept, the section is
      filled in, and the rest of the template is processed the same way. */
  lemma DescriptionAtFirstHeader(template: string, i: nat, ticket: string)
    requires OccursAt(template, i, TemplateTrackingHeader)
    requires forall j :: 0 <= j < i ==> !OccursAt(template, j, TemplateTrackingHeader)
    ensures CreatePrDescription(template, ticket)
      == template[..i] + TrackingSection(ticket)
         + CreatePrDescription(template[i + |TemplateTrackingHeader|..], ticket)
  {
    ReplaceAllAtFirst(template, i, TemplateTrackingHeader, TrackingSection(ticket));
  }

  /** The usual template: one tracking section between text that holds none. */
  lemma DescriptionOfTemplate(before: string, after: string, ticket: string)
    requires forall j :: 0 <= j < |before| ==> !OccursAt(before + TemplateTrackingHeader, j, TemplateTrackingHeader)
    requires !Contains(after, TemplateTrackingHeader)
    ensures CreatePrDescription(before + TemplateTrackingHeader + after, ticket)
      == before + TrackingSection(ticket) + after
  {
    var h := TemplateTrackingHeader;
    var s := before + h + after;
    assert s[..|before| + |h|] == before + h;
    forall j | 0 <= j < |before|
      ensures !OccursAt(s, j, h)
    {
      assert !OccursAt(before + TemplateTrackingHeader, j, TemplateTrackingHeader);
      assert j + |h| <= |before| + |h|;
      assert s[j..j + |h|] == (before + h)[j..j + |h|];
    }
    assert s[|before|..|before| + |h|] == h;
    DescriptionAtFirstHeader(s, |before|, ticket);
    assert s[..|before|] == before && s[|before| + |h|..] == after;
    DescriptionWithoutHeader(after, ticket);
  }

  // ----- The pull-request URL -----

  /** A URL as `url::Url` holds it, before serialisation: the address and the
      query pairs in the order they were appended. */
  datatype PullRequestUrl = PullRequestUrl(address: string, query: seq<(string, string)>)

  /** The parsed URL that `query_pairs_mut` appends to. */
  class MutableUrl {
    var address: string
    var query: seq<(string, string)>

    constructor (address: string)
      ensures this.address == address && query == []
    {
      this.address := address;
      query := [];
    }

    /** `append_pair`: the pair goes at the end, the address is untouched. */
    method AppendPair(key: string, value: string)
      modifies this
      ensures query == old(query) + [(key, value)]
      ensures address == old(address)
    {
      query := query + [(key, value)];
    }
  }

  /** The address the command builds before adding the query. */
  function CompareUrl(repoUrl: string, branch: string): string
  {
    repoUrl + ("/compare/main..." + branch)
  }

  /** The three query pairs, in the order they are appended. */
  function PullRequestQuery(title: string, description: string): seq<(string, string)>
  {
    [("quick_pull", "1"), ("title", title), ("body", description)]
  }

  /** What `construct_pull_request_url` computes, with `parseError` the
      message of `Url::parse` when it refuses the address. */
  function PullRequestUrlOf(repoUrl: string, branch: string, title: string, description: string,
                            parseError: Option<string>): Result<PullRequestUrl>
  {
    var full := CompareUrl(repoUrl, branch);
    match parseError
    case Some(details) => Err(ErrorWithContext("Invalid GitHub URL: " + full, Some(details)))
    case None => Ok(PullRequestUrl(full, PullRequestQuery(title, description)))
  }

  /** `construct_pull_request_url`. */
  method ConstructPullRequestUrl(repoUrl: string, branch: string, title: string, description: string,
                                 parseError: Option<string>) returns (r: Result<PullRequestUrl>)
    ensures r == PullRequestUrlOf(repoUrl, branch, title, description, parseError)
  {
    var comparePath := "/compare/main..." + branch;
    var fullUrl := repoUrl + comparePath;
    if parseError.Some? {
      return Err(ErrorWithContext("Invalid GitHub URL: " + fullUrl, Some(parseError.value)));
    }
    var url := new MutableUrl(fullUrl);
    url.AppendPair("quick_pull", "1");
    url.AppendPair("title", title);
    url.AppendPair("body", description);
    assert url.query == PullRequestQuery(title, description);
    return Ok(PullRequestUrl(url.address, url.query));
  }

  /** On success the address is the repository followed by the compare path,
      and the query asks for a quick pull with the given title and body; on
      failure the message names the full address and keeps the parser's words. */
  lemma PullRequestUrlShape(repoUrl: string, branch: string, title: string, description: string,
                            parseError: Option<string>)
    ensures var r := PullRequestUrlOf(repoUrl, branch, title, description, parseError);
      && (r.Ok? <==> parseError.None?)
      && (r.Ok? ==> r.value.address[..|repoUrl|] == repoUrl
                    && r.value.address[|repoUrl|..] == "/compare/main..." + branch
                    && |r.value.query| == 3
                    && r.value.query[0] == ("quick_pull", "1")
                    && r.value.query[1] == ("title", title)
                    && r.value.query[2] == ("body", description))
      && (r.Err? ==> r.error.userMessage == "Invalid GitHub URL: " + repoUrl + "/compare/main..." + branch
                     && r.error.technicalDetails == parseError)
  {
    var full := CompareUrl(repoUrl, branch);
    assert full[..|repoUrl|] == repoUrl;
    assert full[|repoUrl|..] == "/compare/main..." + branch;
  }

  // ----- The command -----

  /** The repository as `run` sees it: its `origin` remote, its head, and the
      text of `.github/PULL_REQUEST_TEMPLATE.md` (`None` when the working
      directory or the file is missing, where the command panics). */
  datatype WorkingCopy = WorkingCopy(origin: Option<Remote>, head: HeadLookup, template: Option<string>)

  /** What `Repository::discover(".")` gives. */
  datatype Discovery = Discovered(repo: WorkingCopy) | NotDiscovered(details: string)

  /** How a run ends. `Opened` is a successful run, with what it prints and
      the URL it hands to `open`. `OpenFailed` is the failure to launch `open`,
      whose error message is "Failed to open url: " followed by the
      serialised URL. */
  datatype Outcome =
    | Opened(repoUrl: string, branch: string, ticket: string, url: PullRequestUrl)
    | Failed(error: ErrorWithContext)
    | OpenFailed(url: PullRequestUrl, details: string)
    | Panicked

  /** The steps of `run` once the ticket is known. */
  function Submit(repoUrl: string, branch: string, ticket: string, template: Option<string>,
                  parseError: Option<string>, openError: Option<string>): Outcome
  {
    match template
    case None => Panicked
    case Some(text) =>
      var title := PrTitle(ticket);
      var description := CreatePrDescription(text, ticket);
      match PullRequestUrlOf(repoUrl, branch, title, description, parseError)
      case Err(e) => Failed(e)
      case Ok(url) =>
        match openError
        case Some(details) => OpenFailed(url, details)
        case None => Opened(repoUrl, branch, ticket, url)
  }

  /** `run`. `parseError` and `openError` are the failures of `Url::parse`
      and of spawning `open`, when they fail. */
  function Run(discovery: Discovery, parseError: Option<string>, openError: Option<string>): Outcome
  {
    match discovery
    case NotDiscovered(details) => Failed(ErrorWithContext("GitHub repository not found", Some(details)))
    case Discovered(repo) =>
      match GetBitwardenRepo(repo.origin)
      case None => Failed(ErrorWithContext("Not a recognized Bitwarden repository", None))
      case Some(repoUrl) =>
        match GetBranchName(repo.head)
        case Err(e) => Failed(e)
        case Ok(branch) =>
          match GetTicketFromBranch(branch)
          case None => Failed(ErrorWithContext("No ticket found in branch name: " + branch, None))
          case Some(ticket) => Submit(repoUrl, branch, ticket, repo.template, parseError, openError)
  }

  /** The first two checks: no repository, then an unrecognised remote. */
  lemma RunRepositoryFailures(discovery: Discovery, parseError: Option<string>, openError: Option<string>)
    ensures discovery.NotDiscovered? ==>
      Run(discovery, parseError, openError)
        == Failed(ErrorWithContext("GitHub repository not found", Some(discovery.details)))
    ensures discovery.Discovered? && GetBitwardenRepo(discovery.repo.origin).None? ==>
      Run(discovery, parseError, openError)
        == Failed(ErrorWithContext("Not a recognized Bitwarden repository", None))
  {
  }

  /** The remote is checked before the branch is read: for an unrecognised
      remote neither the head nor the template makes any difference. */
  lemma RunChecksRemoteFirst(repo: WorkingCopy, other: WorkingCopy, parseError: Option<string>, openError: Option<string>)
    requires repo.origin == other.origin && GetBitwardenRepo(repo.origin).None?
    ensures Run(Discovered(repo), parseError, openError) == Run(Discovered(other), parseError, openError)
  {
  }

  /** In a recognised repository the branch failures come next, then the
      missing ticket, each reported as such. */
  lemma RunBranchFailures(repo: WorkingCopy, parseError: Option<string>, openError: Option<string>)
    requires GetBitwardenRepo(repo.origin).Some?
    ensures repo.head.HeadError? ==>
      Run(Discovered(repo), parseError, openError)
        == Failed(ErrorWithContext("Unable to retrieve git head", Some(repo.head.message)))
    ensures repo.head == Head(None) ==>
      Run(Discovered(repo), parseError, openError)
        == Failed(ErrorWithContext("Error getting branch shorthand name", None))
    ensures repo.head.Head? && repo.head.shorthand.Some?
            && GetTicketFromBranch(repo.head.shorthand.value).None? ==>
      Run(Discovered(repo), parseError, openError)
        == Failed(ErrorWithContext("No ticket found in branch name: " + repo.head.shorthand.value, None))
  {
  }

  /** A run that reaches `open` has read a branch of a Bitwarden repository
      with a well-formed ticket, and the URL holds the compare address of that
      branch with the bracketed ticket as title and the filled-in template as
      body. */
  lemma RunOpened(repo: WorkingCopy, parseError: Option<string>, openError: Option<string>)
    requires Run(Discovered(repo), parseError, openError).Opened?
    ensures var o := Run(Discovered(repo), parseError, openError);
      && parseError.None? && openError.None? && repo.template.Some?
      && GetBitwardenRepo(repo.origin) == Some(o.repoUrl) && IsBitwardenUrl(o.repoUrl)
      && repo.head == Head(Some(o.branch))
      && GetTicketFromBranch(o.branch) == Some(o.ticket) && IsTicket(o.ticket)
      && o.url == PullRequestUrl(CompareUrl(o.repoUrl, o.branch),
                                 PullRequestQuery("[" + o.ticket + "]",
                                                  CreatePrDescription(repo.template.value, o.ticket)))
  {
    var o := Run(Discovered(repo), parseError, openError);
    TicketShape(o.branch);
  }

  /** The repository passes every check up to reading the template. */
  predicate HasTicket(repo: WorkingCopy)
  {
    && GetBitwardenRepo(repo.origin).Some?
    && GetBranchName(repo.head).Ok?
    && GetTicketFromBranch(GetBranchName(repo.head).value).Some?
  }

  /** The command panics exactly when it gets as far as the template and
      cannot read it. */
  lemma RunPanics(discovery: Discovery, parseError: Option<string>, openError: Option<string>)
    ensures Run(discovery, parseError, openError).Panicked?
      <==> discovery.Discovered? && HasTicket(discovery.repo) && discovery.repo.template.None?
  {
  }

  /** Past the template, a refused address is reported with the parser's
      words, and a failed launch of `open` with its own. */
  lemma RunLateFailures(repo: WorkingCopy, parseError: Option<string>, openError: Option<string>)
    requires HasTicket(repo) && repo.template.Some?
    ensures var o := Run(Discovered(repo), parseError, openError);
      && (parseError.Some? ==>
            && o.Failed? && o.error.technicalDetails == parseError
            && o.error.userMessage
               == "Invalid GitHub URL: " + CompareUrl(GetBitwardenRepo(repo.origin).value, GetBranchName(repo.head).value))
      && (parseError.None? && openError.Some? ==> o.OpenFailed? && o.details == openError.value)
      && (parseError.None? && openError.None? ==> o.Opened?)
  {
  }

  /** Conversely, a Bitwarden repository whose branch names a ticket and
      whose template can be read reaches `open`, provided the URL parses and
      `open` launches. */
  lemma RunSucceeds(repo: WorkingCopy, repoUrl: string, branch: string, ticket: string, template: string)
    requires GetBitwardenRepo(repo.origin) == Some(repoUrl)
    requires repo.head == Head(Some(branch)) && GetTicketFromBranch(branch) == Some(ticket)
    requires repo.template == Some(template)
    ensures Run(Discovered(repo), None, None)
      == Opened(repoUrl, branch, ticket,
                PullRequestUrl(CompareUrl(repoUrl, branch),
                               PullRequestQuery(PrTitle(ticket), CreatePrDescription(template, ticket))))
  {
  }

  /** A complete successful run on a clone of the clients repository. */
  lemma RunExample(before: string, after: string, template: string)
    ensures Run(Discovered(WorkingCopy(Some(Remote(Some(before + "bitwarden/clients" + after))),
                                       Head(Some("feature/AB-1234/add-thing")), Some(template))),
                None, None)
      == Opened(ClientsUrl, "feature/AB-1234/add-thing", "AB-1234",
                PullRequestUrl(CompareUrl(ClientsUrl, "feature/AB-1234/add-thing"),
                               PullRequestQuery("[AB-1234]", CreatePrDescription(template, "AB-1234"))))
  {
    assert PrTitle("AB-1234") == "[AB-1234]";
    ClientsRemote(before, after);
    TicketExample();
    RunSucceeds(WorkingCopy(Some(Remote(Some(before + "bitwarden/clients" + after))),
                            Head(Some("feature/AB-1234/add-thing")), Some(template)),
                ClientsUrl, "feature/AB-1234/add-thing", "AB-1234", template);
  }
}

/**
 * The LinkedIn adapter `extract_linkedin_jobs`: give up on a login or
 * checkpoint page; otherwise build one job record per result card that has
 * a title link, reading company and location through selector fallback chains.
 *
 * The page is abstract: its URL, its HTML, and per card what the selectors
 * return.
 */
module LinkedinAdapter {
  import opened Wrappers
  import opened Strings
  import opened Regex
  import opened Normalize
  import opened Urls
  import opened Jobs

  const LinkedinOrigin := "https://www.linkedin.com"
  const ViewPrefix := "/jobs/view/"
  const JobIdKey := "currentJobId"

  // ------------------------------------------------------------ job id

  /**
   * `_job_id_from_link(href)`: `""` for `None` or empty; else the first
   * non-blank `currentJobId` query value; else the digits after the leftmost
   * "/jobs/view/" followed by a digit; else the href itself.
   */
  function JobIdFromLink(href: Option<string>): (id: string)
    ensures Or(href, "") == "" <==> id == ""
    ensures Or(href, "") != "" && QueryValue(href.value, JobIdKey).Some? ==>
              id == QueryValue(href.value, JobIdKey).value
    ensures Or(href, "") != "" && QueryValue(href.value, JobIdKey).None? ==>
              && ((forall k :: !MatchAt(href.value, ViewPrefix, k)) ==> id == href.value)
              && (forall k :: Leftmost(href.value, ViewPrefix, k) ==>
                    MaximalDigitsAt(href.value, k + |ViewPrefix|, id))
  {
    if href.None? || href.value == "" then ""
    else
      var h := href.value;
      match QueryValue(h, JobIdKey)
      case Some(jid) => jid
      case None =>
        match SearchDigits(h, ViewPrefix)
        case Some(g) => g
        case None => h
  }

  /**
   * A link whose query carries `currentJobId` yields that value, whatever
   * the path says: the query parses back to its pairs and the first
   * `currentJobId` wins.
   */
  lemma JobIdFromQuery(base: string, pairs: seq<(string, string)>)
    requires '?' !in base && '#' !in base
    requires forall i :: 0 <= i < |pairs| ==> PlainPair(pairs[i])
    requires '#' !in EncodeQuery(pairs)
    requires FirstValue(pairs, JobIdKey).Some?
    ensures JobIdFromLink(Some(base + "?" + EncodeQuery(pairs))) == FirstValue(pairs, JobIdKey).value
  {
    QueryOfJoined(base, EncodeQuery(pairs));
    ParseEncodeQuery(pairs);
  }

  /** A "/jobs/view/<digits>" link without a query yields the digits. */
  lemma JobIdFromViewPath(digits: string, rest: string)
    requires digits != [] && AllDigits(digits)
    requires rest == [] || !IsDigit(rest[0])
    requires '?' !in rest
    ensures JobIdFromLink(Some(LinkedinOrigin + ViewPrefix + digits + rest)) == digits
  {
    var s := LinkedinOrigin + ViewPrefix + digits + rest;
    NoQuestionMark(digits, rest);
    NoQueryNoValue(s, JobIdKey);
    ViewPathDigits(digits, rest);
  }

  /** The leftmost "/jobs/view/" of such a link is the one after the origin. */
  lemma ViewPathDigits(digits: string, rest: string)
    requires digits != [] && AllDigits(digits)
    requires rest == [] || !IsDigit(rest[0])
    ensures SearchDigits(LinkedinOrigin + ViewPrefix + digits + rest, ViewPrefix) == Some(digits)
  {
    var s := LinkedinOrigin + ViewPrefix + digits + rest;
    var n := |LinkedinOrigin|;
    assert s[..n] == LinkedinOrigin;
    assert s[n..n + |ViewPrefix|] == ViewPrefix;
    assert s[n + |ViewPrefix|..n + |ViewPrefix| + |digits|] == digits;
    assert 'j' !in LinkedinOrigin;
    NoEarlierMatch(s, ViewPrefix, n);
    if rest != [] {
      assert s[n + |ViewPrefix| + |digits|] == rest[0];
    }
    SearchFindsPlanted(s, ViewPrefix, n, digits);
  }

  lemma NoQuestionMark(digits: string, rest: string)
    requires AllDigits(digits) && '?' !in rest
    ensures '?' !in LinkedinOrigin + ViewPrefix + digits + rest
  {
    assert !IsDigit('?');
    assert '?' !in digits;
  }

  // --------------------------------------------------- selector fallbacks

  /**
   * The normalised text of the first candidate that normalises to
   * something (`_text_first` as a function); each candidate is the inner
   * text of the element a selector found, or `None` where it found none.
   */
  function FirstText(texts: seq<Option<string>>): (t: Option<string>)
    ensures t.None? <==> forall i :: 0 <= i < |texts| ==> Norm(texts[i]).None?
    ensures t.Some? ==> IsNormal(t.value)
    ensures forall k :: FirstHit(texts, k) ==> t == Norm(texts[k])
  {
    if texts == [] then None
    else
      var head := Norm(texts[0]);
      if head.Some? then head
      else
        var tail := texts[1..];
        var t := FirstText(tail);
        assert forall i :: 1 <= i < |texts| ==> texts[i] == tail[i - 1];
        FirstHitTail(texts);
        t
  }

  /** Index `k` holds the first candidate that normalises to a text. */
  predicate FirstHit(texts: seq<Option<string>>, k: int) {
    0 <= k < |texts| && Norm(texts[k]).Some? && forall j :: 0 <= j < k ==> Norm(texts[j]).None?
  }

  /** Past a first candidate that normalises to nothing, the first hit moves one place down. */
  lemma FirstHitTail(texts: seq<Option<string>>)
    requires texts != [] && Norm(texts[0]).None?
    ensures forall k :: FirstHit(texts, k) ==> k >= 1 && FirstHit(texts[1..], k - 1)
  {
    forall k | FirstHit(texts, k) ensures k >= 1 && FirstHit(texts[1..], k - 1) {
      assert forall j :: 0 <= j < k - 1 ==> texts[1..][j] == texts[j + 1];
    }
  }

  /** `_text_first(root, selectors)`: try the selectors in order and return the first non-empty text. */
  method TextFirst(texts: seq<Option<string>>) returns (t: Option<string>)
    ensures t == FirstText(texts)
  {
    var i := 0;
    while i < |texts|
      invariant 0 <= i <= |texts|
      invariant forall j :: 0 <= j < i ==> Norm(texts[j]).None?
    {
      var n := Norm(texts[i]);
      if n.Some? {
        return n;
      }
      i := i + 1;
    }
    return None;
  }

  // --------------------------------------------------------- login wall

  /**
   * The page is a login or checkpoint wall: the lower-cased URL names
   * "linkedin.com/checkpoint" or "linkedin.com/login", or the lower-cased
   * HTML contains "sign in".
   */
  predicate LoginWall(url: Option<string>, html: string): (wall: bool)
    ensures Contains(Or(url, ""), "linkedin.com/checkpoint") ==> wall
    ensures Contains(Or(url, ""), "linkedin.com/login") ==> wall
    ensures Contains(html, "sign in") ==> wall
  {
    var u := Or(url, "");
    LowerKeeps(u, "linkedin.com/checkpoint");
    LowerKeeps(u, "linkedin.com/login");
    LowerKeeps(html, "sign in");
    || Contains(Lower(u), "linkedin.com/checkpoint")
    || Contains(Lower(u), "linkedin.com/login")
    || Contains(Lower(html), "sign in")
  }

  /** A lower-case text found in `s` is found in `s` lower-cased. */
  lemma LowerKeeps(s: string, sub: string)
    requires Lower(sub) == sub
    ensures Contains(s, sub) ==> Contains(Lower(s), sub)
  {
    if Contains(s, sub) {
      ContainsLower(s, sub);
    }
  }

  /** "Sign in" in any mix of letter case anywhere in the HTML makes the page a wall. */
  lemma SignInAnyCase(url: Option<string>, html: string, text: string)
    requires Contains(html, text) && Lower(text) == "sign in"
    ensures LoginWall(url, html)
  {
    ContainsLower(html, text);
  }

  // -------------------------------------------------------------- cards

  /** The title link of a card: its inner text and its `href` attribute. */
  datatype TitleLink = TitleLink(text: string, href: Option<string>)

  /**
   * One result card: its title link if the title selector found one, and
   * per company and location selector the inner text of the element it
   * found (`None` where it found none or reading the text raised).
   */
  datatype Card = Card(titleLink: Option<TitleLink>,
                       companyTexts: seq<Option<string>>,
                       locationTexts: seq<Option<string>>)

  /**
   * The job for a card with a title link: `urljoin` the href onto the
   * LinkedIn origin, take the id from the joined link, and fall back to the
   * placeholders. No field of the record is empty.
   */
  function CardJob(c: Card): (j: Job)
    requires c.titleLink.Some?
    ensures j.jobId != "" && j.title != "" && j.company != "" && j.location != "" && j.link != ""
  {
    var tl := c.titleLink.value;
    var link := JoinToOrigin(LinkedinOrigin, Or(tl.href, ""));
    Job(JobIdFromLink(Some(link)),
        Or(Norm(Some(tl.text)), "Unknown title"),
        Or(FirstText(c.companyTexts), "Unknown"),
        Or(FirstText(c.locationTexts), "Unknown"),
        link)
  }

  /**
   * The jobs list the card loop builds: cards without a title link are
   * skipped, so there are at most as many jobs as cards, and each job is
   * the job of some card that has a title link.
   */
  function CardJobs(cards: seq<Card>): (jobs: seq<Job>)
    ensures |jobs| <= |cards|
    ensures forall j :: j in jobs ==> exists c :: c in cards && c.titleLink.Some? && j == CardJob(c)
  {
    if cards == [] then []
    else
      var init, last := cards[..|cards| - 1], cards[|cards| - 1];
      assert forall c :: c in init ==> c in cards;
      CardJobs(init) + (if last.titleLink.Some? then [CardJob(last)] else [])
  }

  /**
   * A card whose title links to a root-relative "/jobs/view/" path gets
   * the absolute LinkedIn link, and the digits after "/jobs/view/" as its
   * job id. Tabs and line breaks in the href are deleted before joining,
   * so they may sit anywhere after the prefix, even between the digits.
   */
  lemma ViewCardJob(c: Card, tail: string, digits: string, rest: string)
    requires c.titleLink.Some? && c.titleLink.value.href == Some(ViewPrefix + tail)
    requires RemoveUnsafe(tail) == digits + rest
    requires digits != [] && AllDigits(digits)
    requires rest == [] || !IsDigit(rest[0])
    requires '?' !in rest && '#' !in rest && ';' !in rest && '.' !in rest
    ensures CardJob(c).link == LinkedinOrigin + ViewPrefix + digits + rest
    ensures CardJob(c).jobId == digits
  {
    var ref := ViewPrefix + tail;
    assert Or(c.titleLink.value.href, "") == ref;
    ViewRefJoins(tail, digits + rest);
    assert LinkedinOrigin + ViewPrefix + (digits + rest) == LinkedinOrigin + ViewPrefix + digits + rest;
    JobIdFromViewPath(digits, rest);
  }

  /** A "/jobs/view/" ref joins to the origin followed by the ref without its tabs and line breaks. */
  lemma ViewRefJoins(tail: string, clean: string)
    requires RemoveUnsafe(tail) == clean
    ensures JoinToOrigin(LinkedinOrigin, ViewPrefix + tail) == LinkedinOrigin + ViewPrefix + clean
  {
    var ref := ViewPrefix + tail;
    ViewRefClean(tail, clean);
    JoinRootRelative(LinkedinOrigin, ref);
    assert LinkedinOrigin + (ViewPrefix + clean) == LinkedinOrigin + ViewPrefix + clean;
  }

  lemma ViewRefClean(tail: string, clean: string)
    requires RemoveUnsafe(tail) == clean
    ensures var ref := ViewPrefix + tail;
      ref != "" && ref[0] == '/' && RemoveUnsafe(ref) == ViewPrefix + clean && !StartsWith(RemoveUnsafe(ref), "//")
  {
    RemoveUnsafePrefix(ViewPrefix, tail);
    assert (ViewPrefix + clean)[1] == 'j';
  }

  /** The card loop works card by card: the jobs of `a + b` are those of `a`, then those of `b`. */
  lemma {:induction false} CardJobsAppend(a: seq<Card>, b: seq<Card>)
    ensures CardJobs(a + b) == CardJobs(a) + CardJobs(b)
    decreases |b|
  {
    if b == [] {
      assert a + b == a;
    } else {
      var init := b[..|b| - 1];
      CardJobsAppend(a, init);
      assert (a + b)[..|a + b| - 1] == a + init;
      assert (a + b)[|a + b| - 1] == b[|b| - 1];
    }
  }

  /** A single card yields one job when it has a title link and none otherwise. */
  lemma CardJobsSingle(c: Card)
    ensures CardJobs([c]) == if c.titleLink.Some? then [CardJob(c)] else []
  {
    assert [c][..0] == [];
  }

  /**
   * The fields of a LinkedIn job: the link is the title href joined onto
   * the origin and the id is taken from that link; the title is the
   * normalised title text; company and location are the first selector
   * texts that normalise to something; each falls back to its placeholder.
   */
  lemma CardJobFields(c: Card)
    requires c.titleLink.Some?
    ensures var j := CardJob(c);
      && j.link == JoinToOrigin(LinkedinOrigin, Or(c.titleLink.value.href, ""))
      && j.jobId == JobIdFromLink(Some(j.link))
      && (if AllSpace(c.titleLink.value.text) then j.title == "Unknown title"
          else IsNormal(j.title) && Words(j.title) == Words(c.titleLink.value.text))
      && (if FirstText(c.companyTexts).None? then j.company == "Unknown"
          else j.company == FirstText(c.companyTexts).value && IsNormal(j.company))
      && (if FirstText(c.locationTexts).None? then j.location == "Unknown"
          else j.location == FirstText(c.locationTexts).value && IsNormal(j.location))
  {
  }

  /**
   * `extract_linkedin_jobs`: nothing on a login wall; otherwise one job per
   * card with a title link, in card order.
   */
  method ExtractLinkedinJobs(url: Option<string>, html: string, cards: seq<Card>)
    returns (jobs: seq<Job>)
    ensures LoginWall(url, html) ==> jobs == []
    ensures !LoginWall(url, html) ==> jobs == CardJobs(cards)
  {
    var urlLc := Lower(Or(url, ""));
    var htmlLc := Lower(html);
    if Contains(urlLc, "linkedin.com/checkpoint") || Contains(urlLc, "linkedin.com/login")
       || Contains(htmlLc, "sign in") {
      return [];
    }
    jobs := [];
    var i := 0;
    while i < |cards|
      invariant 0 <= i <= |cards|
      invariant jobs == CardJobs(cards[..i])
    {
      var card := cards[i];
      assert cards[..i + 1] == cards[..i] + [card];
      CardJobsAppend(cards[..i], [card]);
      CardJobsSingle(card);
      if card.titleLink.Some? {
        var titleEl := card.titleLink.value;
        var title := Or(Norm(Some(titleEl.text)), "Unknown title");
        var link := JoinToOrigin(LinkedinOrigin, Or(titleEl.href, ""));
        var company := TextFirst(card.companyTexts);
        var location := TextFirst(card.locationTexts);
        var jobId := JobIdFromLink(Some(link));
        jobs := jobs + [Job(jobId, title, Or(company, "Unknown"), Or(location, "Unknown"), link)];
      }
      i := i + 1;
    }
    assert cards[..i] == cards;
  }
}

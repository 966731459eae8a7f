/**
 * The Seek adapter `extract_seek_jobs`: from the title anchors that three
 * CSS selectors find on a listing page, keep the first anchor for each
 * canonical link, then build one job record per kept anchor.
 *
 * The page is abstract: each selector pass is the sequence of anchors it
 * returned, and each anchor carries what the adapter reads from it.
 */
module SeekAdapter {
  import opened Wrappers
  import opened Strings
  import opened Regex
  import opened Normalize
  import opened Jobs

  const SeekOrigin := "https://www.seek.co.nz"
  const JobPrefix := "/job/"

  // ------------------------------------------------------------ job id

  /**
   * `_job_id_from_url(url)`: the digits after the leftmost "/job/" that is
   * followed by a digit; without such a match, the URL itself (`""` for
   * `None` or empty).
   */
  function JobIdFromUrl(url: Option<string>): (id: string)
    ensures Or(url, "") == "" ==> id == ""
    ensures (forall k :: !MatchAt(Or(url, ""), JobPrefix, k)) ==> id == Or(url, "")
    ensures (exists k :: MatchAt(Or(url, ""), JobPrefix, k)) ==> id != "" && AllDigits(id)
    ensures forall k :: Leftmost(Or(url, ""), JobPrefix, k) ==>
              MaximalDigitsAt(Or(url, ""), k + |JobPrefix|, id)
  {
    var s := Or(url, "");
    match SearchDigits(s, JobPrefix)
    case Some(g) => g
    case None => s
  }

  /** A Seek job URL built from an id of digits gives that id back. */
  lemma JobIdOfSeekUrl(digits: string, rest: string)
    requires digits != [] && AllDigits(digits)
    requires rest == [] || !IsDigit(rest[0])
    ensures JobIdFromUrl(Some(SeekOrigin + JobPrefix + digits + rest)) == digits
  {
    var s := SeekOrigin + JobPrefix + digits + rest;
    var n := |SeekOrigin|;
    assert s[..n] == SeekOrigin;
    assert s[n..n + |JobPrefix|] == JobPrefix;
    assert s[n + |JobPrefix|..n + |JobPrefix| + |digits|] == digits;
    assert 'j' !in SeekOrigin;
    NoEarlierMatch(s, JobPrefix, n);
    if rest != [] {
      assert s[n + |JobPrefix| + |digits|] == rest[0];
    }
    SearchFindsPlanted(s, JobPrefix, n, digits);
  }

  // --------------------------------------------------------------- links

  /** The absolute link for an href: kept when it starts with "http", else put after the Seek origin. */
  function Canonical(href: string): (link: string)
    ensures StartsWith(link, "http")
    ensures StartsWith(href, "http") ==> link == href
  {
    if StartsWith(href, "http") then href else SeekOrigin + href
  }

  /**
   * What the adapter reads from one title anchor: its `href` attribute,
   * its inner text, and the company and location that the in-page script
   * returns for it (`None` where the script found nothing).
   */
  datatype Anchor = Anchor(href: Option<string>, text: string,
                           company: Option<string>, location: Option<string>)

  /** The anchor has a non-empty `href`; the collection loop skips anchors without one. */
  predicate HasHref(a: Anchor) {
    a.href.Some? && a.href.value != ""
  }

  function LinkOf(a: Anchor): string
    requires HasHref(a)
  {
    Canonical(a.href.value)
  }

  /** The canonical links of the anchors that have an `href`. */
  function Links(anchors: seq<Anchor>): set<string> {
    set a | a in anchors && HasHref(a) :: LinkOf(a)
  }

  /** All selector passes, one after the other. */
  function Flatten(passes: seq<seq<Anchor>>): seq<Anchor> {
    if passes == [] then [] else passes[0] + Flatten(passes[1..])
  }

  /**
   * The anchors of `cands` that the collection loop keeps when the links in
   * `seen` are already taken: those with an `href` whose link was not seen
   * before them.
   */
  function KeepFirst(cands: seq<Anchor>, seen: set<string>): (kept: seq<Anchor>)
    ensures forall n :: 0 <= n < |kept| ==> HasHref(kept[n]) && LinkOf(kept[n]) !in seen
  {
    if cands == [] then []
    else if !HasHref(cands[0]) || LinkOf(cands[0]) in seen then KeepFirst(cands[1..], seen)
    else [cands[0]] + KeepFirst(cands[1..], seen + {LinkOf(cands[0])})
  }

  /**
   * The `anchors` list at the end of the collection loop over all passes:
   * anchors that some pass returned, each with an `href`.
   */
  function Collected(passes: seq<seq<Anchor>>): (anchors: seq<Anchor>)
    ensures forall n :: 0 <= n < |anchors| ==> HasHref(anchors[n]) && anchors[n] in Flatten(passes)
  {
    KeptFromCandidates(Flatten(passes), {});
    KeepFirst(Flatten(passes), {})
  }

  /** Every anchor `KeepFirst` keeps is one of the candidates. */
  lemma {:induction false} KeptFromCandidates(cands: seq<Anchor>, seen: set<string>)
    ensures forall n :: 0 <= n < |KeepFirst(cands, seen)| ==> KeepFirst(cands, seen)[n] in cands
  {
    if cands != [] {
      if !HasHref(cands[0]) || LinkOf(cands[0]) in seen {
        KeptFromCandidates(cands[1..], seen);
      } else {
        KeptFromCandidates(cands[1..], seen + {LinkOf(cands[0])});
      }
      assert forall a :: a in cands[1..] ==> a in cands;
    }
  }

  /**
   * The collection loop: walk the passes in order, skip anchors without an
   * `href` and anchors whose canonical link is already in `seen`, keep the rest.
   */
  method CollectAnchors(passes: seq<seq<Anchor>>) returns (anchors: seq<Anchor>)
    ensures anchors == Collected(passes)
  {
    anchors := [];
    var seen: set<string> := {};
    var i := 0;
    while i < |passes|
      invariant 0 <= i <= |passes|
      invariant seen == Links(anchors)
      invariant anchors + KeepFirst(Flatten(passes[i..]), seen) == Collected(passes)
    {
      var pass := passes[i];
      assert passes[i..][0] == pass && passes[i..][1..] == passes[i + 1..];
      assert Flatten(passes[i..]) == pass + Flatten(passes[i + 1..]);
      assert pass[0..] == pass;
      var j := 0;
      while j < |pass|
        invariant 0 <= j <= |pass|
        invariant seen == Links(anchors)
        invariant anchors + KeepFirst(pass[j..] + Flatten(passes[i + 1..]), seen) == Collected(passes)
      {
        var a := pass[j];
        var rest := pass[j + 1..] + Flatten(passes[i + 1..]);
        assert pass[j..] + Flatten(passes[i + 1..]) == [a] + rest;
        assert ([a] + rest)[1..] == rest;
        if a.href.Some? && a.href.value != "" {
          var link := Canonical(a.href.value);
          if link !in seen {
            seen := seen + {link};
            anchors := anchors + [a];
          }
        }
        j := j + 1;
      }
      assert pass[|pass|..] + Flatten(passes[i + 1..]) == Flatten(passes[i + 1..]);
      i := i + 1;
    }
  }

  // ------------------------------------------------ what collection keeps

  /**
   * Index `j` of `c` holds an anchor with an `href` whose link is not in
   * `seen` and does not occur at any earlier index from `i` on.
   */
  predicate FreshFirst(c: seq<Anchor>, i: nat, seen: set<string>, j: int) {
    && i <= j < |c| && HasHref(c[j]) && LinkOf(c[j]) !in seen
    && forall k :: i <= k < j && HasHref(c[k]) ==> LinkOf(c[k]) != LinkOf(c[j])
  }

  /** The indices of `c` from `i` on whose anchors `KeepFirst` keeps. */
  ghost function KeptIndices(c: seq<Anchor>, i: nat, seen: set<string>): seq<nat>
    requires i <= |c|
    decreases |c| - i
  {
    if i == |c| then []
    else if !HasHref(c[i]) || LinkOf(c[i]) in seen then KeptIndices(c, i + 1, seen)
    else [i] + KeptIndices(c, i + 1, seen + {LinkOf(c[i])})
  }

  /**
   * `KeepFirst(c[i..], seen)` is the anchors at the first-occurrence indices
   * of `c` (from `i` on, links not in `seen`), in increasing index order.
   */
  lemma {:induction false} KeepFirstSelects(c: seq<Anchor>, i: nat, seen: set<string>)
    requires i <= |c|
    ensures var kept, idx := KeepFirst(c[i..], seen), KeptIndices(c, i, seen);
      && |kept| == |idx|
      && (forall n :: 0 <= n < |idx| ==> i <= idx[n] < |c| && kept[n] == c[idx[n]])
      && (forall n, m :: 0 <= n < m < |idx| ==> idx[n] < idx[m])
      && (forall j :: j in idx <==> FreshFirst(c, i, seen, j))
    decreases |c| - i
  {
    if i < |c| {
      assert c[i..][0] == c[i] && c[i..][1..] == c[i + 1..];
      if !HasHref(c[i]) || LinkOf(c[i]) in seen {
        KeepFirstSelects(c, i + 1, seen);
        forall j ensures FreshFirst(c, i, seen, j) <==> FreshFirst(c, i + 1, seen, j) {
        }
      } else {
        var l := LinkOf(c[i]);
        KeepFirstSelects(c, i + 1, seen + {l});
        forall j ensures FreshFirst(c, i, seen, j) <==> j == i || FreshFirst(c, i + 1, seen + {l}, j) {
        }
      }
    }
  }

  /**
   * The collected anchors are exactly the first occurrences of each link
   * over all passes, in the order the passes list them: `idx` gives their
   * positions in the flattened passes.
   */
  lemma CollectedAreFirstOccurrences(passes: seq<seq<Anchor>>) returns (idx: seq<nat>)
    ensures var c, kept := Flatten(passes), Collected(passes);
      && |kept| == |idx|
      && (forall n :: 0 <= n < |idx| ==> idx[n] < |c| && kept[n] == c[idx[n]])
      && (forall n, m :: 0 <= n < m < |idx| ==> idx[n] < idx[m])
      && (forall j :: j in idx <==> FreshFirst(c, 0, {}, j))
  {
    var c := Flatten(passes);
    assert c[0..] == c;
    KeepFirstSelects(c, 0, {});
    idx := KeptIndices(c, 0, {});
  }

  /** No two collected anchors share a link, and every one has an `href`. */
  lemma CollectedLinksDistinct(passes: seq<seq<Anchor>>)
    ensures var kept := Collected(passes);
      forall n, m :: 0 <= n < m < |kept| ==> LinkOf(kept[n]) != LinkOf(kept[m])
  {
    var idx := CollectedAreFirstOccurrences(passes);
    var c, kept := Flatten(passes), Collected(passes);
    forall n, m | 0 <= n < m < |kept| ensures LinkOf(kept[n]) != LinkOf(kept[m]) {
      assert idx[m] in idx;
      assert FreshFirst(c, 0, {}, idx[m]);
    }
  }

  /** Every anchor with an `href` has its link among the kept links or `seen`. */
  lemma {:induction false} KeepFirstCovers(cands: seq<Anchor>, seen: set<string>)
    ensures forall a :: a in cands && HasHref(a) ==> LinkOf(a) in seen + Links(KeepFirst(cands, seen))
  {
    if cands != [] {
      var a0 := cands[0];
      if !HasHref(a0) || LinkOf(a0) in seen {
        KeepFirstCovers(cands[1..], seen);
      } else {
        var l := LinkOf(a0);
        KeepFirstCovers(cands[1..], seen + {l});
        var rest := KeepFirst(cands[1..], seen + {l});
        assert Links([a0] + rest) == {l} + Links(rest);
      }
    }
  }

  /** Every link that some pass offers is the link of a collected anchor. */
  lemma EveryLinkCollected(passes: seq<seq<Anchor>>)
    ensures forall a :: a in Flatten(passes) && HasHref(a) ==> LinkOf(a) in Links(Collected(passes))
  {
    KeepFirstCovers(Flatten(passes), {});
  }

  // ------------------------------------------------------------ records

  /**
   * The job built for one kept anchor: its canonical link, the id extracted
   * from that link, and the normalised title, company and location with
   * the placeholders "Unknown title", "Unknown" and "Unknown". No field
   * is empty and the link starts with "http".
   */
  function SeekJob(a: Anchor): (j: Job)
    requires HasHref(a)
    ensures j.jobId != "" && j.title != "" && j.company != "" && j.location != ""
    ensures StartsWith(j.link, "http")
  {
    var link := Canonical(a.href.value);
    assert |link| >= 4;
    Job(JobIdFromUrl(Some(link)),
        Or(Norm(Some(a.text)), "Unknown title"),
        Or(Norm(a.company), "Unknown"),
        Or(Norm(a.location), "Unknown"),
        link)
  }

  /** A normalised text, or the placeholder when normalising left nothing. */
  predicate NormalOr(field: string, s: Option<string>, placeholder: string) {
    if s.None? || AllSpace(s.value) then field == placeholder
    else IsNormal(field) && Words(field) == Words(s.value)
  }

  /**
   * Every Seek job has a link starting with "http", a non-empty id read
   * from that link, and title, company and location that are the
   * normalised scraped text or the placeholder when there was none.
   */
  lemma SeekJobFields(a: Anchor)
    requires HasHref(a)
    ensures var j := SeekJob(a);
      && StartsWith(j.link, "http") && j.link == LinkOf(a)
      && j.jobId == JobIdFromUrl(Some(j.link)) && j.jobId != ""
      && NormalOr(j.title, Some(a.text), "Unknown title")
      && NormalOr(j.company, a.company, "Unknown")
      && NormalOr(j.location, a.location, "Unknown")
  {
    var link := Canonical(a.href.value);
    assert |link| >= 4;
    assert JobIdFromUrl(Some(link)) != "";
  }

  /**
   * The jobs list the record loop builds from `anchors`: one job per
   * anchor.
   */
  function SeekJobs(anchors: seq<Anchor>): (jobs: seq<Job>)
    requires forall m :: 0 <= m < |anchors| ==> HasHref(anchors[m])
    ensures |jobs| == |anchors|
  {
    if anchors == [] then []
    else SeekJobs(anchors[..|anchors| - 1]) + [SeekJob(anchors[|anchors| - 1])]
  }

  /** Exactly one job per anchor: the `n`-th job is built from the `n`-th anchor. */
  lemma {:induction false} SeekJobsInOrder(anchors: seq<Anchor>, n: nat)
    requires forall m :: 0 <= m < |anchors| ==> HasHref(anchors[m])
    requires n < |anchors|
    ensures SeekJobs(anchors)[n] == SeekJob(anchors[n])
  {
    var init, last := anchors[..|anchors| - 1], anchors[|anchors| - 1];
    var front := SeekJobs(init);
    assert SeekJobs(anchors) == front + [SeekJob(last)];
    if n < |init| {
      SeekJobsInOrder(init, n);
      assert init[n] == anchors[n];
      assert SeekJobs(anchors)[n] == front[n] == SeekJob(init[n]);
    } else {
      assert n == |front| && anchors[n] == last;
      assert SeekJobs(anchors)[n] == SeekJob(last);
    }
  }

  /** The record loop of `extract_seek_jobs`: one job per anchor, in anchor order. */
  method BuildSeekJobs(anchors: seq<Anchor>) returns (jobs: seq<Job>)
    requires forall m :: 0 <= m < |anchors| ==> HasHref(anchors[m])
    ensures jobs == SeekJobs(anchors)
  {
    jobs := [];
    var n := 0;
    while n < |anchors|
      invariant 0 <= n <= |anchors|
      invariant jobs == SeekJobs(anchors[..n])
    {
      var a := anchors[n];
      var link := Canonical(a.href.value);
      var title := Or(Norm(Some(a.text)), "Unknown title");
      var jid := JobIdFromUrl(Some(link));
      var company := Norm(a.company);
      var location := Norm(a.location);
      var job := Job(jid, title, Or(company, "Unknown"), Or(location, "Unknown"), link);
      assert job == SeekJob(a);
      var next := anchors[..n + 1];
      assert next[..n] == anchors[..n] && next[n] == a;
      assert SeekJobs(next) == SeekJobs(anchors[..n]) + [SeekJob(a)];
      jobs := jobs + [job];
      n := n + 1;
    }
    assert anchors[..n] == anchors;
  }

  /** `extract_seek_jobs`: collect the anchors, then one job per collected anchor, in order. */
  method ExtractSeekJobs(passes: seq<seq<Anchor>>) returns (jobs: seq<Job>)
    ensures jobs == SeekJobs(Collected(passes))
  {
    var anchors := CollectAnchors(passes);
    jobs := BuildSeekJobs(anchors);
  }
}

/** `find_next_page_url`: the two-tier heuristic that picks the next listing
    page from the pagination controls. */
module Navigator {
  import opened Wrappers
  import opened Text
  import opened Dom
  import opened Web

  const NextPageText := "+1"
  const ChevronClass := "ion-chevron-right"

  /** Tier 1: the control reads exactly "+1" once stripped and has a
      non-empty `href`. */
  predicate IsPlusOne(link: PageLink) {
    Strip(link.text) == NextPageText && Present(link.href)
  }

  /** Tier 2: the control holds exactly one `span`, some span class
      contains `ion-chevron-right`, and the control shows no text. */
  predicate IsChevron(link: PageLink) {
    && |link.spanClasses| == 1
    && (exists k | 0 <= k < |link.spanClasses| :: Contains(link.spanClasses[k], ChevronClass))
    && Strip(link.text) == ""
  }

  datatype Tier = PlusOne | Chevron

  predicate Matches(tier: Tier, link: PageLink) {
    match tier
    case PlusOne => IsPlusOne(link)
    case Chevron => IsChevron(link)
  }

  /** The position of the first element satisfying `p`, if any. */
  function FirstWhere<T>(xs: seq<T>, p: T -> bool): (r: Option<nat>)
    ensures r.Some? ==> r.value < |xs| && p(xs[r.value])
    ensures r.Some? ==> forall k | 0 <= k < r.value :: !p(xs[k])
    ensures r.None? ==> forall k | 0 <= k < |xs| :: !p(xs[k])
  {
    if |xs| == 0 then None
    else if p(xs[0]) then Some(0)
    else
      match FirstWhere(xs[1..], p)
      case None => None
      case Some(i) => Some(i + 1)
  }

  /** The position of the first control of the given tier, if any. */
  function FirstMatch(links: seq<PageLink>, tier: Tier): (r: Option<nat>)
    ensures r.Some? ==> r.value < |links| && Matches(tier, links[r.value])
    ensures r.Some? ==> forall k | 0 <= k < r.value :: !Matches(tier, links[k])
    ensures r.None? ==> forall k | 0 <= k < |links| :: !Matches(tier, links[k])
  {
    FirstWhere(links, (l: PageLink) => Matches(tier, l))
  }

  /** The `href` a tier-2 control passes to `urljoin`; a missing one reads
      as empty, and `urljoin` then returns the channel URL itself. */
  function HrefOrEmpty(href: Option<string>): string {
    match href
    case None => ""
    case Some(h) => h
  }

  /** `find_next_page_url`. No pagination within the wait means no next
      page; otherwise there is one exactly when some control is of tier 1
      or tier 2. Which control is chosen is stated by `TierOneWins` and
      `TierTwoFallback`. */
  function FindNextPageUrl(env: Env, pagination: Pagination): (next: Option<string>)
    ensures !pagination.appeared ==> next == None
    ensures next.Some? <==>
              pagination.appeared
              && exists i | 0 <= i < |pagination.links| ::
                   IsPlusOne(pagination.links[i]) || IsChevron(pagination.links[i])
  {
    var links := pagination.links;
    if !pagination.appeared then None
    else
      match FirstMatch(links, PlusOne)
      case Some(i) =>
        Some(UrlJoin(env, ChannelUrl, links[i].href.value))
      case None =>
        match FirstMatch(links, Chevron)
        case Some(i) => Some(UrlJoin(env, ChannelUrl, HrefOrEmpty(links[i].href)))
        case None => None
  }

  /** The first tier-1 control decides, whatever tier-2 controls precede
      it. */
  lemma TierOneWins(env: Env, pagination: Pagination, i: nat)
    requires pagination.appeared
    requires i < |pagination.links| && IsPlusOne(pagination.links[i])
    requires forall k | 0 <= k < i :: !IsPlusOne(pagination.links[k])
    ensures FindNextPageUrl(env, pagination) == Some(UrlJoin(env, ChannelUrl, pagination.links[i].href.value))
  {
    var links := pagination.links;
    var r := FirstMatch(links, PlusOne);
    assert Matches(PlusOne, links[i]);
    assert r.Some?;
    assert r.value <= i;
    assert !(r.value < i) by {
      assert forall k | 0 <= k < i :: !Matches(PlusOne, links[k]);
    }
  }

  /** Without a tier-1 control, the first tier-2 control decides. */
  lemma TierTwoFallback(env: Env, pagination: Pagination, i: nat)
    requires pagination.appeared
    requires forall k | 0 <= k < |pagination.links| :: !IsPlusOne(pagination.links[k])
    requires i < |pagination.links| && IsChevron(pagination.links[i])
    requires forall k | 0 <= k < i :: !IsChevron(pagination.links[k])
    ensures FindNextPageUrl(env, pagination) == Some(UrlJoin(env, ChannelUrl, HrefOrEmpty(pagination.links[i].href)))
  {
    var links := pagination.links;
    assert FirstMatch(links, PlusOne) == None by {
      assert forall k | 0 <= k < |links| :: !Matches(PlusOne, links[k]);
    }
    var r := FirstMatch(links, Chevron);
    assert r == Some(i) by {
      assert Matches(Chevron, links[i]);
      assert r.Some? && r.value <= i;
      assert !(r.value < i) by {
        assert forall k | 0 <= k < i :: !Matches(Chevron, links[k]);
      }
    }
  }

  /** A control showing no text whose single span has the chevron class
      is a tier-2 control and not a tier-1 one. */
  lemma LoneChevron(link: PageLink)
    requires |link.spanClasses| == 1 && Contains(link.spanClasses[0], ChevronClass)
    requires Strip(link.text) == ""
    ensures IsChevron(link) && !IsPlusOne(link)
  {
    assert Strip(link.text) != NextPageText;
  }

  /** A lone chevron control without an `href` leads back to the channel's
      first listing page. */
  lemma ChevronWithoutHrefRestarts(env: Env, text: string, spanClass: string)
    requires Strip(text) == "" && Contains(spanClass, ChevronClass)
    ensures FindNextPageUrl(env, Pagination(true, [PageLink(text, [spanClass], None)])) == Some(ChannelUrl)
  {
    var link := PageLink(text, [spanClass], None);
    var pagination := Pagination(true, [link]);
    LoneChevron(link);
    TierTwoFallback(env, pagination, 0);
    assert HrefOrEmpty(link.href) == "";
    assert UrlJoin(env, ChannelUrl, "") == ChannelUrl;
  }
}

/**
 * The in-memory store of src/Shortener.Api/Program.cs: the dictionary `urls`
 * (case-insensitive on its keys) and the bodies of the two handlers that use
 * it, `POST /urls` (Create) and `GET /{slug}` (Resolve).
 *
 * The dictionary is a map from the ASCII-folded slug to the entry, which keeps
 * the slug as it was inserted and its target. `Uri.TryCreate` is the parameter
 * `isAbsoluteUri`; the random bytes of each `GenerateSlug()` call in the retry
 * loop are the parameter `draws`, one six-byte block per attempt.
 */
module Store {

  import opened Wrappers
  import opened Text
  import opened Urls
  import opened Slugs
  import opened Models

  /** One dictionary entry: the slug as inserted and the URL it maps to. */
  datatype Entry = Entry(slug: string, target: string)

  /** The dictionary `urls`, keyed by the folded slug. */
  type Table = map<string, Entry>

  datatype BadRequestReason = MissingOriginalUrl | InvalidOriginalUrl | InvalidCustomSlug

  /** What the create handler answers. `OutOfDraws` is the model's own: every
      supplied draw was already taken, where the handler would go on drawing. */
  datatype CreateResult =
    | Created(response: CreateUrlResponse)
    | BadRequest(reason: BadRequestReason)
    | Conflict
    | OutOfDraws

  /** What the resolve handler answers: a 302 redirect or a 404. */
  datatype ResolveResult = Redirect(target: string) | NotFound

  /** The answer of one create together with the dictionary afterwards. */
  datatype Outcome = Outcome(result: CreateResult, table: Table)

  /** The dictionary's representation invariant: each entry sits under its
      own slug, folded. */
  ghost predicate KeyedByFold(t: Table) {
    forall k :: k in t ==> k == Fold(t[k].slug)
  }

  /** What the handler guarantees of every entry it inserts: the slug passes
      the custom-slug rule and the target is a normalized URL. */
  ghost predicate EntriesValid(t: Table) {
    forall k :: k in t ==> IsValidSlug(t[k].slug) && HasHttpScheme(t[k].target) && IsTrimmed(t[k].target)
  }

  /** Every draw is what `RandomNumberGenerator.GetBytes(6)` hands back. */
  predicate DrawsOfDefaultLength(draws: seq<seq<bv8>>) {
    forall j :: 0 <= j < |draws| ==> |draws[j]| == DefaultSlugLength
  }

  /** `urls.ContainsKey(slug)` */
  function Contains(t: Table, slug: string): bool {
    Fold(slug) in t
  }

  /** `urls.TryGetValue(slug, out target)` */
  function Lookup(t: Table, slug: string): Option<string> {
    if Fold(slug) in t then Some(t[Fold(slug)].target) else None
  }

  /** The case-insensitive dictionary finds a slug exactly when some stored
      slug equals it ignoring case, and then answers with that entry's target
      (the only one: two stored slugs never differ by case alone). */
  lemma LookupIgnoresCase(t: Table, slug: string)
    requires KeyedByFold(t)
    ensures Contains(t, slug) <==> exists k :: k in t && EqualsIgnoreCase(t[k].slug, slug)
    ensures Lookup(t, slug).Some? <==> Contains(t, slug)
    ensures forall k :: k in t && EqualsIgnoreCase(t[k].slug, slug) ==> Lookup(t, slug) == Some(t[k].target)
  {
    forall k | k in t
      ensures EqualsIgnoreCase(t[k].slug, slug) <==> k == Fold(slug)
    {
      FoldMatchesIgnoreCase(t[k].slug, slug);
    }
  }

  /** The do-while loop of the create handler: the index of the first draw
      whose slug is not yet in the dictionary, or `None` if every draw is
      taken. */
  function FirstFreshDraw(t: Table, draws: seq<seq<bv8>>): (r: Option<nat>)
    ensures r.None? ==> forall j :: 0 <= j < |draws| ==> Contains(t, SlugOf(draws[j]))
    ensures r.Some? ==> r.value < |draws| && !Contains(t, SlugOf(draws[r.value]))
    ensures r.Some? ==> forall j :: 0 <= j < r.value ==> Contains(t, SlugOf(draws[j]))
    decreases |draws|
  {
    if draws == [] then None
    else if !Contains(t, SlugOf(draws[0])) then Some(0)
    else match FirstFreshDraw(t, draws[1..])
      case None => None
      case Some(j) => Some(j + 1)
  }

  /** `urls[slug] = target` followed by the 201 response. */
  function Insert(t: Table, slug: string, target: string): Outcome {
    Outcome(Created(CreateUrlResponse(slug, "/" + slug, target)), t[Fold(slug) := Entry(slug, target)])
  }

  /** The create handler, as a function of the dictionary before the call. */
  function CreateIn(t: Table, req: CreateUrlRequest, isAbsoluteUri: string -> bool,
                    draws: seq<seq<bv8>>): Outcome
  {
    if IsNullOrWhiteSpace(req.originalUrl) then
      Outcome(BadRequest(MissingOriginalUrl), t)
    else
      var target := NormalizeUrl(req.originalUrl.value);
      if !isAbsoluteUri(target) then
        Outcome(BadRequest(InvalidOriginalUrl), t)
      else if !IsNullOrWhiteSpace(req.customSlug) then
        var slug := Trim(req.customSlug.value);
        if !IsValidSlug(slug) then
          Outcome(BadRequest(InvalidCustomSlug), t)
        else if Contains(t, slug) then
          Outcome(Conflict, t)
        else
          Insert(t, slug, target)
      else
        match FirstFreshDraw(t, draws)
        case None => Outcome(OutOfDraws, t)
        case Some(j) => Insert(t, SlugOf(draws[j]), target)
  }

  /** Create never overwrites or removes an entry. A rejection leaves the
      dictionary as it was; a success adds exactly one entry, under a slug no
      stored slug equals ignoring case, mapping it to the normalized URL, and
      answers with the short URL `/` + slug. */
  lemma CreateOnlyAdds(t: Table, req: CreateUrlRequest, isAbsoluteUri: string -> bool,
                       draws: seq<seq<bv8>>)
    requires KeyedByFold(t)
    ensures var o := CreateIn(t, req, isAbsoluteUri, draws);
      && KeyedByFold(o.table)
      && (!o.result.Created? ==> o.table == t)
      && (o.result.Created? ==>
            var r := o.result.response;
            && req.originalUrl.Some?
            && r.targetUrl == NormalizeUrl(req.originalUrl.value)
            && r.shortUrl == "/" + r.slug
            && !Contains(t, r.slug)
            && o.table.Keys == t.Keys + {Fold(r.slug)}
            && o.table[Fold(r.slug)] == Entry(r.slug, r.targetUrl)
            && (forall k :: k in t ==> o.table[k] == t[k]))
  {
    var o := CreateIn(t, req, isAbsoluteUri, draws);
    if o.result.Created? {
      var r := o.result.response;
      assert !Contains(t, r.slug) && o.table == t[Fold(r.slug) := Entry(r.slug, r.targetUrl)];
    }
  }

  /** Every entry Create inserts passes the custom-slug rule and has a
      normalized target, provided each draw has the six bytes
      `GenerateSlug()` asks for. */
  lemma CreateKeepsEntriesValid(t: Table, req: CreateUrlRequest, isAbsoluteUri: string -> bool,
                                draws: seq<seq<bv8>>)
    requires KeyedByFold(t) && EntriesValid(t) && DrawsOfDefaultLength(draws)
    ensures EntriesValid(CreateIn(t, req, isAbsoluteUri, draws).table)
  {
    var o := CreateIn(t, req, isAbsoluteUri, draws);
    CreateOnlyAdds(t, req, isAbsoluteUri, draws);
    if o.result.Created? {
      var r := o.result.response;
      NormalizeUrlShape(req.originalUrl.value);
      if IsNullOrWhiteSpace(req.customSlug) {
        GeneratedSlugIsValid(draws[FirstFreshDraw(t, draws).value]);
      }
      assert IsValidSlug(r.slug) && HasHttpScheme(r.targetUrl) && IsTrimmed(r.targetUrl);
    }
  }

  /** The original URL is checked first: a null or blank one is rejected as
      missing, and one that does not parse as an absolute URI once normalized
      is rejected as invalid. */
  lemma OriginalUrlRule(t: Table, req: CreateUrlRequest, isAbsoluteUri: string -> bool,
                        draws: seq<seq<bv8>>)
    ensures var o := CreateIn(t, req, isAbsoluteUri, draws);
      && (o.result == BadRequest(MissingOriginalUrl) <==> IsNullOrWhiteSpace(req.originalUrl))
      && (o.result == BadRequest(InvalidOriginalUrl) <==>
            !IsNullOrWhiteSpace(req.originalUrl) && !isAbsoluteUri(NormalizeUrl(req.originalUrl.value)))
  {
  }

  /** With a usable original URL and a custom slug that is not blank, the
      trimmed slug (never empty) decides the answer: it is rejected unless it
      has at most 32 characters from `[a-zA-Z0-9_-]`; a valid one that some
      stored slug equals ignoring case is a conflict; otherwise it is the
      slug created. */
  lemma CustomSlugRule(t: Table, req: CreateUrlRequest, isAbsoluteUri: string -> bool,
                       draws: seq<seq<bv8>>)
    requires !IsNullOrWhiteSpace(req.originalUrl) && isAbsoluteUri(NormalizeUrl(req.originalUrl.value))
    requires !IsNullOrWhiteSpace(req.customSlug)
    ensures var o := CreateIn(t, req, isAbsoluteUri, draws);
      var slug := Trim(req.customSlug.value);
      && slug != []
      && (o.result == BadRequest(InvalidCustomSlug) <==>
            !(1 <= |slug| <= MaxCustomSlugLength && forall i :: 0 <= i < |slug| ==> IsSlugChar(slug[i])))
      && (o.result == Conflict <==> IsValidSlug(slug) && Contains(t, slug))
      && (o.result.Created? <==> IsValidSlug(slug) && !Contains(t, slug))
      && (o.result.Created? ==> o.result.response.slug == slug)
  {
    TrimShape(req.customSlug.value);
  }

  /** A conflict leaves the stored mapping of the slug, and its target, as it
      was. */
  lemma ConflictKeepsExistingTarget(t: Table, req: CreateUrlRequest, isAbsoluteUri: string -> bool,
                                    draws: seq<seq<bv8>>)
    requires CreateIn(t, req, isAbsoluteUri, draws).result == Conflict
    ensures req.customSlug.Some?
    ensures var slug := Trim(req.customSlug.value);
      && CreateIn(t, req, isAbsoluteUri, draws).table == t
      && Lookup(t, slug).Some?
      && Lookup(CreateIn(t, req, isAbsoluteUri, draws).table, slug) == Lookup(t, slug)
  {
  }

  /** A null or blank custom slug counts as absent. */
  lemma BlankCustomSlugIsAbsent(t: Table, url: Option<string>, blank: Option<string>,
                                isAbsoluteUri: string -> bool, draws: seq<seq<bv8>>)
    requires IsNullOrWhiteSpace(blank)
    ensures CreateIn(t, CreateUrlRequest(url, blank), isAbsoluteUri, draws)
         == CreateIn(t, CreateUrlRequest(url, None), isAbsoluteUri, draws)
  {
  }

  /** Without a custom slug, Create succeeds exactly when some draw yields a
      slug that is not taken, and then uses the first such draw: the slug is
      fresh, and every earlier draw collided with a stored slug. */
  lemma GeneratedSlugIsFresh(t: Table, req: CreateUrlRequest, isAbsoluteUri: string -> bool,
                             draws: seq<seq<bv8>>)
    requires !IsNullOrWhiteSpace(req.originalUrl) && isAbsoluteUri(NormalizeUrl(req.originalUrl.value))
    requires IsNullOrWhiteSpace(req.customSlug)
    ensures var o := CreateIn(t, req, isAbsoluteUri, draws);
      && (o.result.Created? <==> exists j :: 0 <= j < |draws| && !Contains(t, SlugOf(draws[j])))
      && (o.result.Created? || o.result == OutOfDraws)
      && (o.result.Created? ==>
            exists j :: 0 <= j < |draws| && o.result.response.slug == SlugOf(draws[j])
                   && !Contains(t, SlugOf(draws[j]))
                   && forall i :: 0 <= i < j ==> Contains(t, SlugOf(draws[i])))
  {
    var o := CreateIn(t, req, isAbsoluteUri, draws);
    match FirstFreshDraw(t, draws)
    case None =>
    case Some(j) =>
      assert o.result.response.slug == SlugOf(draws[j]);
  }

  /** Round trip: after a successful Create of slug `s` with target `u`,
      resolving any casing of `s` finds `u`. */
  lemma CreateThenResolve(t: Table, req: CreateUrlRequest, isAbsoluteUri: string -> bool,
                          draws: seq<seq<bv8>>, query: string)
    requires KeyedByFold(t)
    requires CreateIn(t, req, isAbsoluteUri, draws).result.Created?
    requires EqualsIgnoreCase(query, CreateIn(t, req, isAbsoluteUri, draws).result.response.slug)
    ensures var o := CreateIn(t, req, isAbsoluteUri, draws);
      Lookup(o.table, query) == Some(o.result.response.targetUrl)
  {
    var o := CreateIn(t, req, isAbsoluteUri, draws);
    CreateOnlyAdds(t, req, isAbsoluteUri, draws);
    FoldMatchesIgnoreCase(query, o.result.response.slug);
  }

  /** One call of the create handler: the request, the URI parser's verdicts
      and the random draws that call sees. */
  datatype Call = Call(req: CreateUrlRequest, isAbsoluteUri: string -> bool, draws: seq<seq<bv8>>)

  /** The answers of a run of calls and the dictionary after it. */
  datatype Trace = Trace(results: seq<CreateResult>, table: Table)

  /** Runs the calls one after another, starting from dictionary `t`. */
  function Replay(t: Table, calls: seq<Call>): (tr: Trace)
    ensures |tr.results| == |calls|
    decreases |calls|
  {
    if calls == [] then Trace([], t)
    else
      var prev := Replay(t, calls[..|calls| - 1]);
      var last := calls[|calls| - 1];
      var o := CreateIn(prev.table, last.req, last.isAbsoluteUri, last.draws);
      Trace(prev.results + [o.result], o.table)
  }

  /** Over any run of creates: no entry present at the start is changed or
      removed; every slug created is new at the start, still resolves to its
      target at the end, and no two created slugs are equal ignoring case. */
  lemma {:induction false} ReplayCreatesDistinctSlugs(t: Table, calls: seq<Call>)
    requires KeyedByFold(t)
    ensures var tr := Replay(t, calls);
      && KeyedByFold(tr.table)
      && (forall k :: k in t ==> k in tr.table && tr.table[k] == t[k])
      && (forall i :: 0 <= i < |calls| && tr.results[i].Created? ==>
            && !Contains(t, tr.results[i].response.slug)
            && Lookup(tr.table, tr.results[i].response.slug) == Some(tr.results[i].response.targetUrl))
      && (forall i, j :: 0 <= i < j < |calls| && tr.results[i].Created? && tr.results[j].Created? ==>
            !EqualsIgnoreCase(tr.results[i].response.slug, tr.results[j].response.slug))
    decreases |calls|
  {
    if calls != [] {
      var prev := Replay(t, calls[..|calls| - 1]);
      var last := calls[|calls| - 1];
      var o := CreateIn(prev.table, last.req, last.isAbsoluteUri, last.draws);
      var tr := Replay(t, calls);
      var n := |calls| - 1;
      ReplayCreatesDistinctSlugs(t, calls[..n]);
      CreateOnlyAdds(prev.table, last.req, last.isAbsoluteUri, last.draws);
      assert tr.results == prev.results + [o.result] && tr.table == o.table;
      forall i | 0 <= i < n && tr.results[i].Created?
        ensures Contains(prev.table, tr.results[i].response.slug)
        ensures Lookup(tr.table, tr.results[i].response.slug) == Some(tr.results[i].response.targetUrl)
      {
        assert tr.results[i] == prev.results[i];
      }
      if o.result.Created? {
        forall i | 0 <= i < n && tr.results[i].Created?
          ensures !EqualsIgnoreCase(tr.results[i].response.slug, o.result.response.slug)
        {
          FoldMatchesIgnoreCase(tr.results[i].response.slug, o.result.response.slug);
        }
        assert !Contains(t, o.result.response.slug);
      }
    }
  }

  /** The dictionary `urls` and the two handlers that share it. */
  class UrlStore {

    var urls: Table

    ghost predicate Valid()
      reads this
    {
      KeyedByFold(urls) && EntriesValid(urls)
    }

    /** `new Dictionary<string, string>(StringComparer.OrdinalIgnoreCase)` */
    constructor ()
      ensures Valid() && urls == map[]
    {
      urls := map[];
    }

    /** `GET /{slug}`: redirect to the target of the stored slug that equals
        `slug` ignoring case, or answer not found when there is none. */
    function Resolve(slug: string): (r: ResolveResult)
      reads this
      requires Valid()
      ensures r.Redirect? <==> exists k :: k in urls && EqualsIgnoreCase(urls[k].slug, slug)
      ensures r.Redirect? ==> forall k :: k in urls && EqualsIgnoreCase(urls[k].slug, slug) ==> urls[k].target == r.target
    {
      LookupIgnoresCase(urls, slug);
      match Lookup(urls, slug)
      case Some(target) => Redirect(target)
      case None => NotFound
    }

    /** The retry loop `do { slug = GenerateSlug(); } while (urls.ContainsKey(slug));`
        run over the supplied draws: it stops at the first slug not taken, so
        whenever it yields a slug, no stored slug equals it ignoring case. */
    method DrawFreshSlug(draws: seq<seq<bv8>>) returns (slug: Option<string>)
      ensures slug.Some? ==> !Contains(urls, slug.value)
      ensures slug == match FirstFreshDraw(urls, draws)
                      case None => None
                      case Some(j) => Some(SlugOf(draws[j]))
    {
      var n := 0;
      var taken := true;
      var candidate := "";
      while taken && n < |draws|
        invariant 0 <= n <= |draws|
        invariant forall j :: 0 <= j < n - 1 ==> Contains(urls, SlugOf(draws[j]))
        invariant taken ==> forall j :: 0 <= j < n ==> Contains(urls, SlugOf(draws[j]))
        invariant !taken ==> 0 < n && candidate == SlugOf(draws[n - 1]) && !Contains(urls, candidate)
        decreases |draws| - n
      {
        candidate := GenerateSlug(draws[n]);
        n := n + 1;
        taken := Contains(urls, candidate);
      }
      slug := if taken then None else Some(candidate);
    }

    /** `POST /urls`. */
    method Create(req: CreateUrlRequest, isAbsoluteUri: string -> bool, draws: seq<seq<bv8>>)
      returns (result: CreateResult)
      requires Valid() && DrawsOfDefaultLength(draws)
      modifies this
      ensures Valid()
      ensures Outcome(result, urls) == CreateIn(old(urls), req, isAbsoluteUri, draws)
      ensures forall k :: k in old(urls) ==> k in urls && urls[k] == old(urls)[k]
      ensures !result.Created? ==> urls == old(urls)
      ensures result.Created? ==> forall q :: EqualsIgnoreCase(q, result.response.slug) ==>
                Resolve(q) == Redirect(result.response.targetUrl)
    {
      ghost var before := urls;
      if IsNullOrWhiteSpace(req.originalUrl) {
        return BadRequest(MissingOriginalUrl);
      }
      var target := NormalizeUrl(req.originalUrl.value);
      if !isAbsoluteUri(target) {
        return BadRequest(InvalidOriginalUrl);
      }
      var slug: string;
      if !IsNullOrWhiteSpace(req.customSlug) {
        slug := Trim(req.customSlug.value);
        if |slug| > MaxCustomSlugLength || !MatchesSlugPattern(slug) {
          return BadRequest(InvalidCustomSlug);
        }
        if Contains(urls, slug) {
          return Conflict;
        }
        urls := urls[Fold(slug) := Entry(slug, target)];
      } else {
        var drawn := DrawFreshSlug(draws);
        if drawn.None? {
          return OutOfDraws;
        }
        slug := drawn.value;
        urls := urls[Fold(slug) := Entry(slug, target)];
      }
      result := Created(CreateUrlResponse(slug, "/" + slug, target));
      assert Outcome(result, urls) == CreateIn(before, req, isAbsoluteUri, draws);
      CreateOnlyAdds(before, req, isAbsoluteUri, draws);
      CreateKeepsEntriesValid(before, req, isAbsoluteUri, draws);
      forall q | EqualsIgnoreCase(q, slug) ensures Lookup(urls, q) == Some(target) {
        CreateThenResolve(before, req, isAbsoluteUri, draws, q);
      }
    }
  }
}

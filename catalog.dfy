/** The report pipeline of `main.py`: keep the grade records of supported
    content-stream tags, and walk the product listing's repositories in
    order, stamping every supported record with its repository and that
    repository's tag list. The two catalog requests are inputs: the parsed
    listing response's `data`, and the grade list each repository's request
    returns (a repository missing from that map is a request that failed). */
module Catalog {
  import opened Wrappers
  import UrlJoin

  /** One record of a repository's grades response. */
  datatype ImageGrade = ImageGrade(tag: string, currentGrade: string, nextDropDate: Option<string>)

  /** One entry of the listing response's `data`. */
  datatype RepoStreams = RepoStreams(repository: string, contentStreamTags: seq<string>)

  /** A supported grade record with the `repository` and
      `content_stream_tags` keys added. */
  datatype AnnotatedGrade = AnnotatedGrade(grade: ImageGrade, repository: string, contentStreamTags: seq<string>)

  /** The exceptions that end `main()`. */
  datatype RunError =
    | ListingDataMissing                  // the listing response has no or empty `data`
    | GradeFetchFailed(repository: string) // the grades request failed its status check
    | NoImageGrades(repository: string)    // the grades response is an empty list

  /** The annotated records `main()` logs, in order, and the exception that
      stopped it, if any. */
  datatype RunOutcome = RunOutcome(emitted: seq<AnnotatedGrade>, failure: Option<RunError>)

  // ---------------------------------------------------------------------
  // The two request URLs

  const ServerUrl := "https://catalog.redhat.com/api/containers/v1"
  const Registry := "registry.access.redhat.com"

  /** A listing id or repository name as spliced into an endpoint: a simple
      relative path that neither is empty nor ends with `/`. */
  predicate PathPiece(s: string)
  {
    s != [] && UrlJoin.SimpleEndpoint(s) && !UrlJoin.EndsWithSlash(s)
  }

  /** The part of ServerUrl after `https://` is a simple path, segment by
      segment. The literal is passed in, rather than written in the body,
      so that the verifier meets it only where it is needed. */
  lemma HostPathIsSimple(rest: string)
    requires rest == "catalog.redhat.com/api/containers/v1"
    ensures UrlJoin.SimpleEndpoint(rest) && !UrlJoin.EndsWithSlash(rest)
  {
    var host, p1, p2 := "catalog.redhat.com", "catalog.redhat.com/api", "catalog.redhat.com/api/containers";
    assert UrlJoin.SimpleEndpoint(host) && !UrlJoin.EndsWithSlash(host) by {
      UrlJoin.SegmentIsSimple(host);
    }
    assert UrlJoin.SimpleEndpoint(p1) && !UrlJoin.EndsWithSlash(p1) by {
      assert UrlJoin.Segment("api");
      assert host + "/" + "api" == p1;
      UrlJoin.AppendSegment(host, "api");
    }
    assert UrlJoin.SimpleEndpoint(p2) && !UrlJoin.EndsWithSlash(p2) by {
      assert UrlJoin.Segment("containers");
      assert p1 + "/" + "containers" == p2;
      UrlJoin.AppendSegment(p1, "containers");
    }
    assert UrlJoin.Segment("v1");
    assert p2 + "/" + "v1" == rest;
    UrlJoin.AppendSegment(p2, "v1");
  }

  /** ServerUrl is `https://` followed by its host and path (literals passed
      in, as above). */
  lemma ServerUrlParts(b: string, rest: string)
    requires b == ServerUrl && rest == "catalog.redhat.com/api/containers/v1"
    ensures b == "https://" + rest
  {
  }

  lemma ServerUrlIsSimple()
    ensures UrlJoin.SimpleBase(ServerUrl) && !UrlJoin.EndsWithSlash(ServerUrl)
  {
    var rest := "catalog.redhat.com/api/containers/v1";
    HostPathIsSimple(rest);
    UrlJoin.HttpsBase(rest);
    ServerUrlParts(ServerUrl, rest);
  }

  /** `piece/` spliced between a slash-terminated prefix and a suffix gives a
      simple endpoint, which `construct_url` appends to the base after one
      `/`. */
  lemma SplicedUrl(base: string, prefix: string, piece: string, suffix: string)
    requires UrlJoin.SimpleBase(base) && !UrlJoin.EndsWithSlash(base)
    requires UrlJoin.SimpleEndpoint(prefix) && UrlJoin.EndsWithSlash(prefix)
    requires PathPiece(piece) && UrlJoin.SimpleEndpoint(suffix)
    ensures UrlJoin.SimpleEndpoint(prefix + piece + "/" + suffix)
    ensures UrlJoin.ConstructUrl(base, prefix + piece + "/" + suffix) == base + "/" + prefix + piece + "/" + suffix
  {
    UrlJoin.SlashKeepsSimpleEndpoint(piece);
    UrlJoin.JoinSimpleEndpoints(prefix, piece + "/");
    assert prefix + piece + "/" == prefix + (piece + "/");
    UrlJoin.JoinSimpleEndpoints(prefix + piece + "/", suffix);
    var e := prefix + piece + "/" + suffix;
    assert base + "/" + e == base + "/" + prefix + piece + "/" + suffix;
  }

  /** The fixed head of the listing endpoint is a simple path ending in `/`
      (literal passed in, as above). */
  lemma ListingPrefixIsSimple(p: string)
    requires p == "product-listings/id/"
    ensures UrlJoin.SimpleEndpoint(p) && UrlJoin.EndsWithSlash(p)
  {
    UrlJoin.SegmentIsSimple("product-listings");
    assert UrlJoin.Segment("id");
    UrlJoin.AppendSegment("product-listings", "id");
    assert "product-listings" + "/" + "id" == "product-listings/id";
    UrlJoin.SlashKeepsSimpleEndpoint("product-listings/id");
    assert "product-listings/id" + "/" == p;
  }

  /** The URL `get_repositories_and_supported_streams` requests. */
  function RepositoriesUrl(productListingId: string): (url: string)
    requires PathPiece(productListingId)
    ensures url == ServerUrl + "/" + "product-listings/id/" + productListingId + "/" + "repositories"
  {
    ServerUrlIsSimple();
    ListingPrefixIsSimple("product-listings/id/");
    UrlJoin.SegmentIsSimple("repositories");
    SplicedUrl(ServerUrl, "product-listings/id/", productListingId, "repositories");
    UrlJoin.ConstructUrl(ServerUrl, "product-listings/id/" + productListingId + "/" + "repositories")
  }

  /** The endpoint `get_image_grades` builds, segment by segment. */
  function GradesEndpoint(repository: string): string
  {
    "repositories" + "/" + "registry" + "/" + Registry + "/" + "repository" + "/" + repository + "/" + "grades"
  }

  lemma GradesEndpointIsSimple(repository: string)
    requires PathPiece(repository)
    ensures UrlJoin.SimpleEndpoint(GradesEndpoint(repository))
  {
    var a1 := "repositories" + "/" + "registry";
    var a2 := a1 + "/" + Registry;
    var a3 := a2 + "/" + "repository";
    var a4 := a3 + "/" + repository;
    UrlJoin.SegmentIsSimple("repositories");
    assert UrlJoin.Segment("registry");
    UrlJoin.AppendSegment("repositories", "registry");
    assert UrlJoin.Segment(Registry);
    UrlJoin.AppendSegment(a1, Registry);
    assert UrlJoin.Segment("repository");
    UrlJoin.AppendSegment(a2, "repository");
    UrlJoin.AppendPath(a3, repository);
    assert UrlJoin.Segment("grades");
    UrlJoin.AppendSegment(a4, "grades");
  }

  /** The URL `get_image_grades` requests. */
  function GradesUrl(repository: string): (url: string)
    requires PathPiece(repository)
    ensures url == ServerUrl + "/" + GradesEndpoint(repository)
  {
    ServerUrlIsSimple();
    GradesEndpointIsSimple(repository);
    UrlJoin.ConstructUrl(ServerUrl, GradesEndpoint(repository))
  }

  // ---------------------------------------------------------------------
  // filter_content_stream_grades

  /** The records of imageGrades whose tag is one of contentStreamTags, in
      their original order and unchanged. */
  function FilterContentStreamGrades(imageGrades: seq<ImageGrade>, contentStreamTags: seq<string>): (r: seq<ImageGrade>)
    ensures |r| <= |imageGrades|
    ensures forall g :: g in r ==> g in imageGrades && g.tag in contentStreamTags
  {
    if imageGrades == [] then []
    else
      var rest := FilterContentStreamGrades(imageGrades[1..], contentStreamTags);
      if imageGrades[0].tag in contentStreamTags then [imageGrades[0]] + rest else rest
  }

  /** a is b with some elements left out, the rest in their order. */
  predicate IsSubsequence<T(==)>(a: seq<T>, b: seq<T>)
    decreases |b|
  {
    if a == [] then true
    else if b == [] then false
    else if a[0] == b[0] then IsSubsequence(a[1..], b[1..])
    else IsSubsequence(a, b[1..])
  }

  /** A record is kept exactly when it is in the input and its tag is
      supported. */
  lemma {:induction false} FilterKeepsExactlySupported(imageGrades: seq<ImageGrade>, contentStreamTags: seq<string>, g: ImageGrade)
    ensures g in FilterContentStreamGrades(imageGrades, contentStreamTags) <==>
      g in imageGrades && g.tag in contentStreamTags
  {
    if imageGrades != [] {
      FilterKeepsExactlySupported(imageGrades[1..], contentStreamTags, g);
      assert imageGrades == [imageGrades[0]] + imageGrades[1..];
    }
  }

  /** Each supported record is kept as often as it occurs, each other one
      never: nothing supported is dropped. */
  lemma {:induction false} FilterCounts(imageGrades: seq<ImageGrade>, contentStreamTags: seq<string>, g: ImageGrade)
    ensures multiset(FilterContentStreamGrades(imageGrades, contentStreamTags))[g] ==
      if g.tag in contentStreamTags then multiset(imageGrades)[g] else 0
  {
    if imageGrades != [] {
      FilterCounts(imageGrades[1..], contentStreamTags, g);
      assert imageGrades == [imageGrades[0]] + imageGrades[1..];
    }
  }

  /** The kept records appear in the order of the input. */
  lemma {:induction false} FilterIsSubsequence(imageGrades: seq<ImageGrade>, contentStreamTags: seq<string>)
    ensures IsSubsequence(FilterContentStreamGrades(imageGrades, contentStreamTags), imageGrades)
  {
    if imageGrades != [] {
      FilterIsSubsequence(imageGrades[1..], contentStreamTags);
      var rest := FilterContentStreamGrades(imageGrades[1..], contentStreamTags);
      if imageGrades[0].tag !in contentStreamTags {
        SubsequenceOfTail(rest, imageGrades);
      }
    }
  }

  lemma {:induction false} SubsequenceOfTail<T>(a: seq<T>, b: seq<T>)
    requires b != [] && IsSubsequence(a, b[1..])
    ensures IsSubsequence(a, b)
    decreases |b|, |a|
  {
    if a != [] && a[0] == b[0] {
      SubsequenceDropFirst(a, b[1..]);
    }
  }

  lemma {:induction false} SubsequenceDropFirst<T>(a: seq<T>, b: seq<T>)
    requires a != [] && IsSubsequence(a, b)
    ensures IsSubsequence(a[1..], b)
    decreases |b|, |a|
  {
    if a[0] == b[0] {
      if a[1..] != [] {
        SubsequenceDropFirst(a[1..], b[1..]);
        SubsequenceOfTail(a[1..], b);
      }
    } else {
      SubsequenceDropFirst(a, b[1..]);
      if a[1..] != [] {
        SubsequenceOfTail(a[1..], b);
      }
    }
  }

  /** Only the set of tags matters: lists with the same members, in any
      order and with any repetitions, keep the same records. */
  lemma {:induction false} FilterDependsOnTagSet(imageGrades: seq<ImageGrade>, tags1: seq<string>, tags2: seq<string>)
    requires forall t :: t in tags1 <==> t in tags2
    ensures FilterContentStreamGrades(imageGrades, tags1) == FilterContentStreamGrades(imageGrades, tags2)
  {
    if imageGrades != [] {
      FilterDependsOnTagSet(imageGrades[1..], tags1, tags2);
    }
  }

  /** Filtering an already filtered list changes nothing. */
  lemma {:induction false} FilterIdempotent(imageGrades: seq<ImageGrade>, contentStreamTags: seq<string>)
    ensures var once := FilterContentStreamGrades(imageGrades, contentStreamTags);
      FilterContentStreamGrades(once, contentStreamTags) == once
  {
    if imageGrades != [] {
      FilterIdempotent(imageGrades[1..], contentStreamTags);
    }
  }

  // ---------------------------------------------------------------------
  // main()

  /** The records one repository contributes: its supported grades, each
      stamped with the repository name and its full tag list. */
  function SupportedRecords(repo: RepoStreams, allImageGrades: seq<ImageGrade>): seq<AnnotatedGrade>
  {
    Stamp(FilterContentStreamGrades(allImageGrades, repo.contentStreamTags), repo)
  }

  /** A record is among a repository's records exactly when it is a grade of
      that repository with a supported tag, stamped with the repository's
      name and full tag list. */
  lemma SupportedRecordsExactly(repo: RepoStreams, allImageGrades: seq<ImageGrade>, e: AnnotatedGrade)
    ensures e in SupportedRecords(repo, allImageGrades) <==>
      exists g :: g in allImageGrades && g.tag in repo.contentStreamTags
        && e == AnnotatedGrade(g, repo.repository, repo.contentStreamTags)
  {
    var supported := FilterContentStreamGrades(allImageGrades, repo.contentStreamTags);
    StampMembers(supported, repo, e);
    FilterKeepsExactlySupported(allImageGrades, repo.contentStreamTags, e.grade);
  }

  /** grades, in order, each stamped with repo's name and tag list. */
  function Stamp(grades: seq<ImageGrade>, repo: RepoStreams): (r: seq<AnnotatedGrade>)
    ensures |r| == |grades|
    ensures forall i :: 0 <= i < |r| ==> r[i] == AnnotatedGrade(grades[i], repo.repository, repo.contentStreamTags)
  {
    seq(|grades|, i requires 0 <= i < |grades| =>
      AnnotatedGrade(grades[i], repo.repository, repo.contentStreamTags))
  }

  /** A stamped record is in the stamped list exactly when its grade is in
      the list it came from. */
  lemma StampMembers(grades: seq<ImageGrade>, repo: RepoStreams, e: AnnotatedGrade)
    ensures e in Stamp(grades, repo) <==>
      e.grade in grades && e.repository == repo.repository && e.contentStreamTags == repo.contentStreamTags
  {
    var r := Stamp(grades, repo);
    if e in r {
      var p :| 0 <= p < |r| && r[p] == e;
      assert grades[p] == e.grade;
    }
  }

  function Prepend(records: seq<AnnotatedGrade>, o: RunOutcome): RunOutcome
  {
    RunOutcome(records + o.emitted, o.failure)
  }

  /** The repository loop of `main()` over repos: fetch each repository's
      grades, stop at the first failed or empty response, otherwise emit its
      supported records and go on. */
  function Process(repos: seq<RepoStreams>, gradesByRepo: map<string, seq<ImageGrade>>): (r: RunOutcome)
    ensures r.failure.Some? ==>
      exists i :: 0 <= i < |repos| && r.failure.value in {GradeFetchFailed(repos[i].repository), NoImageGrades(repos[i].repository)}
    ensures forall e :: e in r.emitted ==> e.grade.tag in e.contentStreamTags
  {
    if repos == [] then RunOutcome([], None)
    else if repos[0].repository !in gradesByRepo then
      RunOutcome([], Some(GradeFetchFailed(repos[0].repository)))
    else if gradesByRepo[repos[0].repository] == [] then
      RunOutcome([], Some(NoImageGrades(repos[0].repository)))
    else
      Prepend(SupportedRecords(repos[0], gradesByRepo[repos[0].repository]), Process(repos[1..], gradesByRepo))
  }

  /** `main()`: no or empty `data` fails at once; otherwise the repository
      loop runs over it. */
  function MainOutcome(listingData: Option<seq<RepoStreams>>, gradesByRepo: map<string, seq<ImageGrade>>): (r: RunOutcome)
    ensures r.failure == Some(ListingDataMissing) <==> listingData.None? || listingData.value == []
    ensures r.failure == Some(ListingDataMissing) ==> r.emitted == []
  {
    if listingData.None? || listingData.value == [] then RunOutcome([], Some(ListingDataMissing))
    else Process(listingData.value, gradesByRepo)
  }

  lemma PrependTwice(a: seq<AnnotatedGrade>, b: seq<AnnotatedGrade>, o: RunOutcome)
    ensures Prepend(a, Prepend(b, o)) == Prepend(a + b, o)
  {
    assert a + (b + o.emitted) == (a + b) + o.emitted;
  }

  /** One step of the repository loop, at position i. */
  lemma ProcessAt(repos: seq<RepoStreams>, i: nat, gradesByRepo: map<string, seq<ImageGrade>>)
    requires i < |repos|
    ensures var name := repos[i].repository;
      Process(repos[i..], gradesByRepo) ==
        if name !in gradesByRepo then RunOutcome([], Some(GradeFetchFailed(name)))
        else if gradesByRepo[name] == [] then RunOutcome([], Some(NoImageGrades(name)))
        else Prepend(SupportedRecords(repos[i], gradesByRepo[name]), Process(repos[i + 1..], gradesByRepo))
  {
    assert repos[i..][0] == repos[i];
    assert repos[i..][1..] == repos[i + 1..];
  }

  /** `main()` with both catalog requests replaced by their responses;
      returns the records it logs and the exception that ends it. */
  method RunListing(listingData: Option<seq<RepoStreams>>, gradesByRepo: map<string, seq<ImageGrade>>)
    returns (emitted: seq<AnnotatedGrade>, failure: Option<RunError>)
    ensures RunOutcome(emitted, failure) == MainOutcome(listingData, gradesByRepo)
  {
    emitted := [];
    if listingData.None? || listingData.value == [] {
      failure := Some(ListingDataMissing);
      return;
    }
    var repositories := listingData.value;
    var i := 0;
    while i < |repositories|
      invariant 0 <= i <= |repositories|
      invariant Prepend(emitted, Process(repositories[i..], gradesByRepo)) == Process(repositories, gradesByRepo)
    {
      var repository := repositories[i].repository;
      var contentStreamTags := repositories[i].contentStreamTags;
      ProcessAt(repositories, i, gradesByRepo);
      if repository !in gradesByRepo {
        failure := Some(GradeFetchFailed(repository));
        return;
      }
      var allImageGrades := gradesByRepo[repository];
      if allImageGrades == [] {
        failure := Some(NoImageGrades(repository));
        return;
      }
      var supportedImageGrades := FilterContentStreamGrades(allImageGrades, contentStreamTags);
      ghost var records := SupportedRecords(repositories[i], allImageGrades);
      ghost var before := emitted;
      var j := 0;
      while j < |supportedImageGrades|
        invariant 0 <= j <= |supportedImageGrades|
        invariant emitted == before + records[..j]
      {
        assert records[..j + 1] == records[..j] + [records[j]];
        emitted := emitted + [AnnotatedGrade(supportedImageGrades[j], repository, contentStreamTags)];
        j := j + 1;
      }
      assert records[..j] == records;
      PrependTwice(before, records, Process(repositories[i + 1..], gradesByRepo));
      i := i + 1;
    }
    failure := None;
  }

  // ---------------------------------------------------------------------
  // What main() emits and where it stops

  /** Every repository of repos had its grades fetched, and none came back
      empty. */
  predicate AllFetched(repos: seq<RepoStreams>, gradesByRepo: map<string, seq<ImageGrade>>)
  {
    forall i :: 0 <= i < |repos| ==>
      repos[i].repository in gradesByRepo && gradesByRepo[repos[i].repository] != []
  }

  lemma AllFetchedTail(repos: seq<RepoStreams>, gradesByRepo: map<string, seq<ImageGrade>>)
    requires repos != [] && AllFetched(repos, gradesByRepo)
    ensures AllFetched(repos[1..], gradesByRepo)
  {
    forall i | 0 <= i < |repos[1..]|
      ensures repos[1..][i].repository in gradesByRepo && gradesByRepo[repos[1..][i].repository] != []
    {
      assert repos[1..][i] == repos[i + 1];
    }
  }

  lemma AllFetchedSlice(repos: seq<RepoStreams>, gradesByRepo: map<string, seq<ImageGrade>>, lo: nat, hi: nat)
    requires lo <= hi <= |repos| && AllFetched(repos, gradesByRepo)
    ensures AllFetched(repos[lo..hi], gradesByRepo)
  {
    forall i | 0 <= i < |repos[lo..hi]|
      ensures repos[lo..hi][i].repository in gradesByRepo && gradesByRepo[repos[lo..hi][i].repository] != []
    {
      assert repos[lo..hi][i] == repos[lo + i];
    }
  }

  /** The records of repos, repository after repository. */
  function EmittedBy(repos: seq<RepoStreams>, gradesByRepo: map<string, seq<ImageGrade>>): seq<AnnotatedGrade>
    requires AllFetched(repos, gradesByRepo)
  {
    if repos == [] then []
    else SupportedRecords(repos[0], gradesByRepo[repos[0].repository]) + EmittedBy(repos[1..], gradesByRepo)
  }

  /** e is a supported record of repo, stamped with repo's own name and tag
      list. */
  predicate FromRepository(e: AnnotatedGrade, repo: RepoStreams, gradesByRepo: map<string, seq<ImageGrade>>)
  {
    && repo.repository in gradesByRepo
    && e.repository == repo.repository
    && e.contentStreamTags == repo.contentStreamTags
    && e.grade in gradesByRepo[repo.repository]
    && e.grade.tag in repo.contentStreamTags
  }

  /** The loop ends without an exception exactly when every repository's
      grades were fetched and non-empty, and then it has emitted the records
      of all repositories in order. */
  lemma {:induction false} ProcessSucceeds(repos: seq<RepoStreams>, gradesByRepo: map<string, seq<ImageGrade>>)
    ensures Process(repos, gradesByRepo).failure.None? <==> AllFetched(repos, gradesByRepo)
    ensures AllFetched(repos, gradesByRepo) ==>
      Process(repos, gradesByRepo).emitted == EmittedBy(repos, gradesByRepo)
  {
    if repos != [] {
      ProcessSucceeds(repos[1..], gradesByRepo);
      if AllFetched(repos[1..], gradesByRepo) {
        assert AllFetched(repos, gradesByRepo) <==>
          repos[0].repository in gradesByRepo && gradesByRepo[repos[0].repository] != [];
      }
    }
  }

  /** The first repository whose grades request fails or comes back empty
      ends the loop with that error: what was emitted is exactly the records
      of the repositories before it, and no later repository is looked at. */
  lemma {:induction false} ProcessStopsAtFirstFailure(repos: seq<RepoStreams>, gradesByRepo: map<string, seq<ImageGrade>>, k: nat)
    requires k < |repos| && AllFetched(repos[..k], gradesByRepo)
    requires repos[k].repository !in gradesByRepo || gradesByRepo[repos[k].repository] == []
    ensures Process(repos, gradesByRepo) == RunOutcome(EmittedBy(repos[..k], gradesByRepo),
      Some(if repos[k].repository !in gradesByRepo then GradeFetchFailed(repos[k].repository)
           else NoImageGrades(repos[k].repository)))
  {
    if k > 0 {
      assert repos[1..][..k - 1] == repos[..k][1..];
      AllFetchedTail(repos[..k], gradesByRepo);
      ProcessStopsAtFirstFailure(repos[1..], gradesByRepo, k - 1);
    }
  }

  lemma EmittedByCons(repos: seq<RepoStreams>, gradesByRepo: map<string, seq<ImageGrade>>)
    requires repos != [] && AllFetched(repos, gradesByRepo)
    ensures AllFetched(repos[1..], gradesByRepo)
    ensures EmittedBy(repos, gradesByRepo) ==
      SupportedRecords(repos[0], gradesByRepo[repos[0].repository]) + EmittedBy(repos[1..], gradesByRepo)
  {
    AllFetchedTail(repos, gradesByRepo);
  }

  /** Every emitted record is a supported record of one of the listed
      repositories, carrying that repository's name and complete tag list;
      an unsupported record is never emitted. */
  lemma {:induction false} EmittedProvenance(repos: seq<RepoStreams>, gradesByRepo: map<string, seq<ImageGrade>>, e: AnnotatedGrade)
    requires e in Process(repos, gradesByRepo).emitted
    ensures exists i :: 0 <= i < |repos| && FromRepository(e, repos[i], gradesByRepo)
  {
    var head := repos[0];
    var records := SupportedRecords(head, gradesByRepo[head.repository]);
    if e in records {
      var supported := FilterContentStreamGrades(gradesByRepo[head.repository], head.contentStreamTags);
      var p :| 0 <= p < |records| && records[p] == e;
      assert supported[p] in supported;
      assert FromRepository(e, repos[0], gradesByRepo);
    } else {
      EmittedProvenance(repos[1..], gradesByRepo, e);
      var i :| 0 <= i < |repos[1..]| && FromRepository(e, repos[1..][i], gradesByRepo);
      assert repos[1..][i] == repos[i + 1];
    }
  }

  /** Every supported record of a repository reached without failure is
      emitted, stamped with that repository's name and tag list. */
  lemma {:induction false} EmittedComplete(repos: seq<RepoStreams>, gradesByRepo: map<string, seq<ImageGrade>>, i: nat, g: ImageGrade)
    requires i < |repos| && AllFetched(repos[..i + 1], gradesByRepo)
    requires g in gradesByRepo[repos[i].repository] && g.tag in repos[i].contentStreamTags
    ensures AnnotatedGrade(g, repos[i].repository, repos[i].contentStreamTags) in Process(repos, gradesByRepo).emitted
  {
    assert repos[..i + 1][0] == repos[0];
    if i == 0 {
      var repo := repos[0];
      var supported := FilterContentStreamGrades(gradesByRepo[repo.repository], repo.contentStreamTags);
      FilterKeepsExactlySupported(gradesByRepo[repo.repository], repo.contentStreamTags, g);
      var p :| 0 <= p < |supported| && supported[p] == g;
      assert SupportedRecords(repo, gradesByRepo[repo.repository])[p] == AnnotatedGrade(g, repo.repository, repo.contentStreamTags);
    } else {
      assert repos[1..][..i] == repos[..i + 1][1..];
      EmittedComplete(repos[1..], gradesByRepo, i - 1, g);
    }
  }

  /** The records come repository by repository, in listing order: those of
      the first k repositories precede those of the rest. */
  lemma {:induction false} EmittedInListingOrder(repos: seq<RepoStreams>, gradesByRepo: map<string, seq<ImageGrade>>, k: nat)
    requires AllFetched(repos, gradesByRepo) && k <= |repos|
    ensures AllFetched(repos[..k], gradesByRepo) && AllFetched(repos[k..], gradesByRepo)
    ensures EmittedBy(repos, gradesByRepo) == EmittedBy(repos[..k], gradesByRepo) + EmittedBy(repos[k..], gradesByRepo)
  {
    assert repos[..k] + repos[k..] == repos;
    EmittedByAppend(repos[..k], repos[k..], gradesByRepo);
  }

  /** The records of two lists of repositories, one after the other. */
  lemma {:induction false} EmittedByAppend(a: seq<RepoStreams>, b: seq<RepoStreams>, gradesByRepo: map<string, seq<ImageGrade>>)
    requires AllFetched(a + b, gradesByRepo)
    ensures AllFetched(a, gradesByRepo) && AllFetched(b, gradesByRepo)
    ensures EmittedBy(a + b, gradesByRepo) == EmittedBy(a, gradesByRepo) + EmittedBy(b, gradesByRepo)
  {
    AllFetchedSlice(a + b, gradesByRepo, 0, |a|);
    AllFetchedSlice(a + b, gradesByRepo, |a|, |a + b|);
    assert (a + b)[0..|a|] == a && (a + b)[|a|..|a + b|] == b;
    if a != [] {
      assert (a + b)[1..] == a[1..] + b;
      EmittedByCons(a + b, gradesByRepo);
      EmittedByCons(a, gradesByRepo);
      EmittedByAppend(a[1..], b, gradesByRepo);
      var head := SupportedRecords(a[0], gradesByRepo[a[0].repository]);
      var mid, tail := EmittedBy(a[1..], gradesByRepo), EmittedBy(b, gradesByRepo);
      assert head + (mid + tail) == (head + mid) + tail;
    }
  }
}

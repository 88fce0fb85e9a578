/** The three public operations over one owner's projects (lib/github.js
    `getProjects`, `getProjectBySlug`, `getAllProjectSlugs`). */
module Catalog {
  import opened Js
  import opened Http
  import opened Repositories
  import opened Text
  import opened Projects

  /** The upstream API as the pipeline sees it: the reply to the listing
      request for an owner and a page size, and the reply to the README
      request for an owner and a repository name. */
  datatype Upstream = Upstream(
    listRepos: (string, int) -> Reply<seq<Repo>>,
    readme: (string, string) -> Reply<string>,
    lib: Libraries)

  const DefaultProjects := 10
  const SlugLookupProjects := 50

  /** The repositories selected for `username`. */
  function Selected(up: Upstream, username: string, maxProjects: int): seq<Repo>
  {
    FetchRepositories(up.listRepos(username, maxProjects), maxProjects)
  }

  /** `getProjects`: nothing for an empty owner name, else one record per
      selected repository, ranked like the selection. */
  function GetProjects(up: Upstream, username: string, maxProjects: int): (ps: seq<Project>)
    ensures username == "" ==> ps == []
    ensures Payload(up.listRepos(username, maxProjects)).None? ==> ps == []
    ensures 0 <= maxProjects ==> |ps| <= maxProjects
    ensures username != "" ==> |ps| == |Selected(up, username, maxProjects)|
    ensures username != "" ==> forall i :: 0 <= i < |ps| ==>
              var repo := Selected(up, username, maxProjects)[i];
              Listed(repo) && ps[i] == Normalize(up.lib, repo, FetchReadme(up.lib, up.readme(username, repo.name)))
    ensures forall i, j :: 0 <= i < j < |ps| ==>
              ps[i].stars > ps[j].stars ||
              (ps[i].stars == ps[j].stars && ps[i].updatedAt >= ps[j].updatedAt)
  {
    if username == "" then []
    else
      var repos := Selected(up, username, maxProjects);
      var ps := ProcessRepositories(up.lib, name => up.readme(username, name), repos);
      RankedAllPairs(repos);
      ps
  }

  /** `projects.find(p => p.slug === slug) || null`: the first project in
      list order whose slug is `slug`. */
  function FindBySlug(ps: seq<Project>, slug: string): (r: Option<Project>)
    ensures r.None? <==> forall i :: 0 <= i < |ps| ==> ps[i].slug != slug
    ensures r.Some? ==> exists i :: 0 <= i < |ps| && ps[i] == r.value && ps[i].slug == slug &&
                                    forall j :: 0 <= j < i ==> ps[j].slug != slug
  {
    if ps == [] then None
    else if ps[0].slug == slug then Some(ps[0])
    else
      var r := FindBySlug(ps[1..], slug);
      assert forall i :: 1 <= i < |ps| ==> ps[i] == ps[1..][i - 1];
      if r.Some? then
        var k :| 0 <= k < |ps[1..]| && ps[1..][k] == r.value && ps[1..][k].slug == slug &&
                 forall j :: 0 <= j < k ==> ps[1..][j].slug != slug;
        assert ps[k + 1] == r.value;
        r
      else r
  }

  /** `getProjectBySlug`: lists up to 50 projects again and searches them. */
  function GetProjectBySlug(up: Upstream, username: string, slug: string): (r: Option<Project>)
    ensures r.Some? ==> r.value.slug == slug && r.value in GetProjects(up, username, SlugLookupProjects)
    ensures r.Some? ==>
              exists i :: 0 <= i < |GetProjects(up, username, SlugLookupProjects)| &&
                          GetProjects(up, username, SlugLookupProjects)[i] == r.value &&
                          forall j :: 0 <= j < i ==> GetProjects(up, username, SlugLookupProjects)[j].slug != slug
    ensures r.None? <==> forall p :: p in GetProjects(up, username, SlugLookupProjects) ==> p.slug != slug
  {
    FindBySlug(GetProjects(up, username, SlugLookupProjects), slug)
  }

  /** One static path: `{ params: { slug } }`. */
  datatype PathParams = PathParams(slug: string)

  /** The slug of each project, in order. */
  function SlugPaths(ps: seq<Project>): (r: seq<PathParams>)
    ensures |r| == |ps|
    ensures forall i :: 0 <= i < |ps| ==> r[i].slug == ps[i].slug
  {
    if ps == [] then []
    else
      var rest := SlugPaths(ps[1..]);
      assert forall i :: 1 <= i < |ps| ==> ps[i] == ps[1..][i - 1];
      [PathParams(ps[0].slug)] + rest
  }

  /** `getAllProjectSlugs`: the slugs of the default listing of 10 projects. */
  function GetAllProjectSlugs(up: Upstream, username: string): (r: seq<PathParams>)
    ensures username == "" ==> r == []
    ensures |r| <= DefaultProjects
    ensures username != "" ==> |r| == |Selected(up, username, DefaultProjects)|
    ensures username != "" ==> forall i :: 0 <= i < |r| ==>
              r[i].slug == Slug(Selected(up, username, DefaultProjects)[i].name)
  {
    var ps := GetProjects(up, username, DefaultProjects);
    var r := SlugPaths(ps);
    assert forall i :: 0 <= i < |r| ==> r[i].slug == ps[i].slug;
    r
  }

  // ---------------------------------------------------------------------
  // How the operations relate

  /** A listed repository of the owner's listing page that fits in the page
      of the slug lookup is one of the projects the lookup searches. */
  lemma {:induction false} ListedRepoIsSearched(up: Upstream, username: string, repo: Repo)
    requires username != ""
    requires Payload(up.listRepos(username, SlugLookupProjects)).Some?
    requires |Payload(up.listRepos(username, SlugLookupProjects)).value| <= SlugLookupProjects
    requires repo in Payload(up.listRepos(username, SlugLookupProjects)).value && Listed(repo)
    ensures exists j :: 0 <= j < |GetProjects(up, username, SlugLookupProjects)| &&
                        GetProjects(up, username, SlugLookupProjects)[j].slug == Slug(repo.name)
  {
    var page := Payload(up.listRepos(username, SlugLookupProjects)).value;
    var sel := Selected(up, username, SlugLookupProjects);
    assert sel == Select(page, SlugLookupProjects);
    SelectKeepsAllThatFit(page, SlugLookupProjects, repo);
    var j :| 0 <= j < |sel| && sel[j] == repo;
    var ps := GetProjects(up, username, SlugLookupProjects);
    assert ps[j] == Normalize(up.lib, repo, FetchReadme(up.lib, up.readme(username, repo.name)));
  }

  /** Every path that `getAllProjectSlugs` yields is found by
      `getProjectBySlug`, provided the upstream answers consistently: the page
      of 10 lists only repositories of the page of 50, and the page of 50
      holds at most 50 entries. */
  lemma EveryListedSlugResolves(up: Upstream, username: string)
    requires Payload(up.listRepos(username, DefaultProjects)).Some?
    requires Payload(up.listRepos(username, SlugLookupProjects)).Some?
    requires forall repo :: repo in Payload(up.listRepos(username, DefaultProjects)).value ==>
               repo in Payload(up.listRepos(username, SlugLookupProjects)).value
    requires |Payload(up.listRepos(username, SlugLookupProjects)).value| <= SlugLookupProjects
    ensures forall path :: path in GetAllProjectSlugs(up, username) ==>
              GetProjectBySlug(up, username, path.slug).Some? &&
              GetProjectBySlug(up, username, path.slug).value.slug == path.slug
  {
    var paths := GetAllProjectSlugs(up, username);
    forall path | path in paths
      ensures GetProjectBySlug(up, username, path.slug).Some?
    {
      var i :| 0 <= i < |paths| && paths[i] == path;
      var sel := Selected(up, username, DefaultProjects);
      var page := Payload(up.listRepos(username, DefaultProjects)).value;
      var repo := sel[i];
      assert multiset(sel)[repo] > 0;
      assert repo in page;
      ListedRepoIsSearched(up, username, repo);
    }
  }

  /** When every listed repository has a name, the empty slug finds nothing. */
  lemma EmptySlugIsNotFound(up: Upstream, username: string)
    requires Payload(up.listRepos(username, SlugLookupProjects)).Some? ==>
               forall repo :: repo in Payload(up.listRepos(username, SlugLookupProjects)).value ==> repo.name != ""
    ensures GetProjectBySlug(up, username, "") == None
  {
    var ps := GetProjects(up, username, SlugLookupProjects);
    if username != "" {
      var sel := Selected(up, username, SlugLookupProjects);
      forall i | 0 <= i < |ps|
        ensures ps[i].slug != ""
      {
        assert multiset(sel)[sel[i]] > 0;
        assert sel[i] in Payload(up.listRepos(username, SlugLookupProjects)).value;
      }
    }
  }
}

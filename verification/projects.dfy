/** The project record built for each selected repository, and the batch
    that builds one per repository (lib/github.js `fetchReadme` and
    `processRepositories`). */
module Projects {
  import opened Js
  import opened Http
  import opened Repositories
  import opened Text

  /** The metadata block at the head of a README, key to value. */
  type FrontMatter = map<string, string>

  /** `frontMatter[key]` read as a string operand of `||`: a missing key is
      falsy like the empty string. */
  function Field(fm: FrontMatter, key: string): string
  {
    if key in fm then fm[key] else ""
  }

  /** The libraries the pipeline calls but does not define. */
  datatype Libraries = Libraries(
    /** `gray-matter`: the metadata and the remaining body, or `None` when it throws. */
    matter: string -> Option<(FrontMatter, string)>,
    /** `marked`: Markdown to HTML. */
    marked: string -> string,
    /** `Buffer.from(content, 'base64').toString('utf-8')`. */
    decodeBase64: string -> string)

  /** The render-ready record of one repository. */
  datatype Project = Project(
    id: int,
    name: string,
    slug: string,
    title: string,
    description: string,
    shortDescription: string,
    githubUrl: string,
    liveUrl: Option<string>,
    stars: nat,
    language: Option<string>,
    topics: seq<string>,
    createdAt: int,
    updatedAt: int,
    readme: Option<string>,
    frontMatter: FrontMatter)

  const NoDescription := "No description available"

  /** `fetchReadme`: the decoded README text of a successful reply; `None`
      for a status outside 2xx, an unreadable body and a network error. */
  function FetchReadme(lib: Libraries, reply: Reply<string>): (r: Option<string>)
    ensures r.Some? <==> Payload(reply).Some?
    ensures r.Some? ==> r.value == lib.decodeBase64(Payload(reply).value)
  {
    match Payload(reply)
    case Some(content) => Some(lib.decodeBase64(content))
    case None => None
  }

  /** The rendered README and the front matter of a README lookup
      (lines 101-114): nothing is rendered for a missing or empty README; when
      the front matter cannot be parsed the whole text is rendered. */
  function RenderReadme(lib: Libraries, readme: Option<string>): (r: (Option<string>, FrontMatter))
    ensures r.0.None? <==> readme.None? || readme == Some("")
    ensures r.0.None? ==> r.1 == map[]
    ensures readme.Some? && readme.value != "" && lib.matter(readme.value).Some? ==>
              r == (Some(lib.marked(lib.matter(readme.value).value.1)), lib.matter(readme.value).value.0)
    ensures readme.Some? && readme.value != "" && lib.matter(readme.value).None? ==>
              r == (Some(lib.marked(readme.value)), map[])
  {
    if readme.None? || readme.value == "" then (None, map[])
    else
      match lib.matter(readme.value)
      case Some((data, body)) => (Some(lib.marked(body)), data)
      case None => (Some(lib.marked(readme.value)), map[])
  }

  /** The title: the front-matter title when it is non-empty, else the
      humanised repository name. */
  function Title(fm: FrontMatter, name: string): string
  {
    Or(Field(fm, "title"), Humanize(name))
  }

  /** The description text before its placeholder: front matter first, then
      the repository description, empty values counting as absent. */
  function DescriptionSource(fm: FrontMatter, repo: Repo): string
  {
    Or(Field(fm, "description"), OrEmpty(repo.description))
  }

  /** The live URL: front matter `live_url`, then the homepage, else `null`. */
  function LiveUrl(fm: FrontMatter, repo: Repo): Option<string>
  {
    var u := Or(Field(fm, "live_url"), OrEmpty(repo.homepage));
    if u == "" then None else Some(u)
  }

  /** The record for `repo` given the result of its README lookup. */
  function Normalize(lib: Libraries, repo: Repo, readme: Option<string>): (p: Project)
    // identity and passthrough fields
    ensures p.id == repo.id && p.name == repo.name && p.githubUrl == repo.htmlUrl
    ensures p.stars == repo.stars && p.language == repo.language
    ensures p.createdAt == repo.createdAt && p.updatedAt == repo.updatedAt
    // the slug is a function of the name alone
    ensures p.slug == Slug(repo.name)
    // title
    ensures Field(p.frontMatter, "title") != "" ==> p.title == p.frontMatter["title"]
    ensures Field(p.frontMatter, "title") == "" ==> p.title == Humanize(repo.name)
    // description priority
    ensures Field(p.frontMatter, "description") != "" ==> p.description == p.frontMatter["description"]
    ensures Field(p.frontMatter, "description") == "" && OrEmpty(repo.description) != "" ==>
              p.description == repo.description.value
    ensures Field(p.frontMatter, "description") == "" && OrEmpty(repo.description) == "" ==>
              p.description == NoDescription
    // the short description is the description cut to 150 characters, with
    // an ellipsis; a placeholder description leaves the ellipsis alone
    ensures DescriptionSource(p.frontMatter, repo) != "" ==>
              p.shortDescription == ShortDescription(p.description)
    ensures DescriptionSource(p.frontMatter, repo) == "" ==> p.shortDescription == Ellipsis
    // live URL priority
    ensures Field(p.frontMatter, "live_url") != "" ==> p.liveUrl == Some(p.frontMatter["live_url"])
    ensures Field(p.frontMatter, "live_url") == "" && OrEmpty(repo.homepage) != "" ==>
              p.liveUrl == Some(repo.homepage.value)
    ensures Field(p.frontMatter, "live_url") == "" && OrEmpty(repo.homepage) == "" ==> p.liveUrl == None
    // topics default
    ensures repo.topics.None? ==> p.topics == []
    ensures repo.topics.Some? ==> p.topics == repo.topics.value
    // README
    ensures (p.readme, p.frontMatter) == RenderReadme(lib, readme)
    ensures p.readme.None? <==> readme.None? || readme == Some("")
    ensures p.readme.None? ==> p.frontMatter == map[]
  {
    var (html, fm) := RenderReadme(lib, readme);
    Project(
      id := repo.id,
      name := repo.name,
      slug := Slug(repo.name),
      title := Title(fm, repo.name),
      description := Or(DescriptionSource(fm, repo), NoDescription),
      shortDescription := ShortDescription(DescriptionSource(fm, repo)),
      githubUrl := repo.htmlUrl,
      liveUrl := LiveUrl(fm, repo),
      stars := repo.stars,
      language := repo.language,
      topics := repo.topics.GetOr([]),
      createdAt := repo.createdAt,
      updatedAt := repo.updatedAt,
      readme := html,
      frontMatter := fm)
  }

  /** `processRepositories`: one record per repository, in the order of
      `repos` whatever order the README lookups complete in; `readmeReply`
      answers the README request for a repository name. */
  function ProcessRepositories(lib: Libraries, readmeReply: string -> Reply<string>, repos: seq<Repo>)
    : (ps: seq<Project>)
    ensures |ps| == |repos|
    ensures forall i :: 0 <= i < |repos| ==>
              ps[i] == Normalize(lib, repos[i], FetchReadme(lib, readmeReply(repos[i].name)))
  {
    if repos == [] then []
    else
      var rest := ProcessRepositories(lib, readmeReply, repos[1..]);
      assert forall i :: 1 <= i < |repos| ==> repos[i] == repos[1..][i - 1];
      [Normalize(lib, repos[0], FetchReadme(lib, readmeReply(repos[0].name)))] + rest
  }

  /** A README lookup that fails for one repository leaves that record
      without README and front matter, and the rest of the batch as it is. */
  lemma ReadmeFailureIsIsolated(lib: Libraries, readmeReply: string -> Reply<string>, repos: seq<Repo>, i: int)
    requires 0 <= i < |repos|
    requires Payload(readmeReply(repos[i].name)).None?
    ensures |ProcessRepositories(lib, readmeReply, repos)| == |repos|
    ensures ProcessRepositories(lib, readmeReply, repos)[i].readme == None
    ensures ProcessRepositories(lib, readmeReply, repos)[i].frontMatter == map[]
    ensures ProcessRepositories(lib, readmeReply, repos)[i].name == repos[i].name
  {
  }

  /** A long description gives a short description of 153 characters that
      begins the description and ends with the ellipsis. */
  lemma LongDescriptionIsCut(lib: Libraries, repo: Repo, readme: Option<string>)
    requires |DescriptionSource(Normalize(lib, repo, readme).frontMatter, repo)| >= ShortLength
    ensures |Normalize(lib, repo, readme).shortDescription| == ShortLength + |Ellipsis|
    ensures Normalize(lib, repo, readme).shortDescription ==
            Normalize(lib, repo, readme).description[..ShortLength] + Ellipsis
  {
  }
}

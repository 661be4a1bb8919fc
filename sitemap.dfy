/** `app/sitemap.ts`: the site's sitemap, the six fixed pages followed by one
    entry per listed blog post and one per project. Priorities are kept in
    tenths (`0.7` is 7). */
module Sitemap {
  import opened SeqUtil
  import Content

  datatype ChangeFrequency = Weekly | Monthly | Yearly

  datatype Entry = Entry(url: string, changeFrequency: ChangeFrequency, priorityTenths: nat)

  const BaseUrl := "https://greenhouselabs.com"

  function StaticPages(): seq<Entry>
  {
    [ Entry(BaseUrl, Weekly, 10),
      Entry(BaseUrl + "/projects", Weekly, 9),
      Entry(BaseUrl + "/blog", Weekly, 8),
      Entry(BaseUrl + "/contact", Monthly, 7),
      Entry(BaseUrl + "/privacy", Yearly, 3),
      Entry(BaseUrl + "/terms", Yearly, 3) ]
  }

  function BlogUrl(slug: string): string
  {
    BaseUrl + "/blog/" + slug
  }

  function ProjectUrl(slug: string): string
  {
    BaseUrl + "/projects/" + slug
  }

  /** `slugs.map(slug => ({ url: ..., changeFrequency: "monthly", priority }))`. */
  function SlugPages(url: string -> string, slugs: seq<string>, priorityTenths: nat): seq<Entry>
  {
    seq(|slugs|, i requires 0 <= i < |slugs| => Entry(url(slugs[i]), Monthly, priorityTenths))
  }

  function Sitemap(postSlugs: seq<string>, projectSlugs: seq<string>): (r: seq<Entry>)
    ensures |r| == 6 + |postSlugs| + |projectSlugs|
    ensures r[..6] == StaticPages()
    ensures forall i :: 0 <= i < |postSlugs| ==> r[6 + i] == Entry(BaseUrl + "/blog/" + postSlugs[i], Monthly, 7)
    ensures forall j :: 0 <= j < |projectSlugs| ==>
      r[6 + |postSlugs| + j] == Entry(BaseUrl + "/projects/" + projectSlugs[j], Monthly, 8)
  {
    StaticPages() + SlugPages(BlogUrl, postSlugs, 7) + SlugPages(ProjectUrl, projectSlugs, 8)
  }

  /** The sitemap's URLs, for membership questions. */
  function Urls(entries: seq<Entry>): seq<string>
  {
    seq(|entries|, i requires 0 <= i < |entries| => entries[i].url)
  }

  predicate StartsWith(u: string, prefix: string)
  {
    |prefix| <= |u| && u[..|prefix|] == prefix
  }

  /** The sections of the sitemap are told apart by their URL prefixes: only
      blog entries start with `/blog/` after the base URL, only project
      entries with `/projects/`. */
  lemma Sections(postSlugs: seq<string>, projectSlugs: seq<string>, i: int)
    requires 0 <= i < 6 + |postSlugs| + |projectSlugs|
    ensures var u := Sitemap(postSlugs, projectSlugs)[i].url;
      && (StartsWith(u, BaseUrl + "/blog/") <==> 6 <= i < 6 + |postSlugs|)
      && (StartsWith(u, BaseUrl + "/projects/") <==> 6 + |postSlugs| <= i)
  {
    var r := Sitemap(postSlugs, projectSlugs);
    var u := r[i].url;
    var n := |BaseUrl|;
    if i < 6 {
      assert r[i] == StaticPages()[i];
      assert |u| < n + 6 || u[n + 1] != 'b';
      assert |u| < n + 10;
    } else if i < 6 + |postSlugs| {
      assert u == BaseUrl + "/blog/" + postSlugs[i - 6];
      assert u[n + 1] == 'b';
    } else {
      assert u == BaseUrl + "/projects/" + projectSlugs[i - 6 - |postSlugs|];
      assert u[n + 1] == 'p';
    }
  }

  lemma BlogUrlInjective(s: string, t: string)
    requires BlogUrl(s) == BlogUrl(t)
    ensures s == t
  {
    var n := |BaseUrl + "/blog/"|;
    assert BlogUrl(s)[n..] == s;
    assert BlogUrl(t)[n..] == t;
  }

  lemma ProjectUrlInjective(s: string, t: string)
    requires ProjectUrl(s) == ProjectUrl(t)
    ensures s == t
  {
    var n := |BaseUrl + "/projects/"|;
    assert ProjectUrl(s)[n..] == s;
    assert ProjectUrl(t)[n..] == t;
  }

  /** A blog URL is in the sitemap exactly when its slug is one of `postSlugs`. */
  lemma BlogUrlListed(postSlugs: seq<string>, projectSlugs: seq<string>, s: string)
    ensures BlogUrl(s) in Urls(Sitemap(postSlugs, projectSlugs)) <==> s in postSlugs
  {
    var r := Sitemap(postSlugs, projectSlugs);
    var urls := Urls(r);
    if BlogUrl(s) in urls {
      var i :| 0 <= i < |urls| && urls[i] == BlogUrl(s);
      Sections(postSlugs, projectSlugs, i);
      assert StartsWith(BlogUrl(s), BaseUrl + "/blog/");
      BlogUrlInjective(s, postSlugs[i - 6]);
    }
    if s in postSlugs {
      var i :| 0 <= i < |postSlugs| && postSlugs[i] == s;
      assert urls[6 + i] == BlogUrl(s);
    }
  }

  /** A project URL is in the sitemap exactly when its slug is one of
      `projectSlugs`. */
  lemma ProjectUrlListed(postSlugs: seq<string>, projectSlugs: seq<string>, s: string)
    ensures ProjectUrl(s) in Urls(Sitemap(postSlugs, projectSlugs)) <==> s in projectSlugs
  {
    var r := Sitemap(postSlugs, projectSlugs);
    var urls := Urls(r);
    if ProjectUrl(s) in urls {
      var i :| 0 <= i < |urls| && urls[i] == ProjectUrl(s);
      Sections(postSlugs, projectSlugs, i);
      assert StartsWith(ProjectUrl(s), BaseUrl + "/projects/");
      ProjectUrlInjective(s, projectSlugs[i - 6 - |postSlugs|]);
    }
    if s in projectSlugs {
      var j :| 0 <= j < |projectSlugs| && projectSlugs[j] == s;
      assert urls[6 + |postSlugs| + j] == ProjectUrl(s);
    }
  }

  /** The site's sitemap, built from the content directories as the page
      does, lists a post exactly when a published `.mdx` post carries its
      slug: drafts never appear. */
  lemma SitemapListsOnlyPublishedPosts(
    blogDir: Content.Directory<Content.BlogFrontmatter>, projectsDir: Content.Directory<Content.ProjectFrontmatter>,
    readingTime: string -> string, timeOf: string -> int, s: string)
    ensures var r := Sitemap(Content.PostSlugs(blogDir, readingTime, timeOf), Content.ProjectSlugs(projectsDir, timeOf));
      BlogUrl(s) in Urls(r) <==>
        exists f :: f in Content.MdxFiles(blogDir) && f.data.published && f.data.slug == s
  {
    BlogUrlListed(Content.PostSlugs(blogDir, readingTime, timeOf), Content.ProjectSlugs(projectsDir, timeOf), s);
    Content.PostSlugsArePublishedSlugs(blogDir, readingTime, timeOf, s);
  }

  /** Every `.mdx` project file gets a sitemap entry, and no other project does. */
  lemma SitemapListsEveryProject(
    blogDir: Content.Directory<Content.BlogFrontmatter>, projectsDir: Content.Directory<Content.ProjectFrontmatter>,
    readingTime: string -> string, timeOf: string -> int, s: string)
    ensures var r := Sitemap(Content.PostSlugs(blogDir, readingTime, timeOf), Content.ProjectSlugs(projectsDir, timeOf));
      ProjectUrl(s) in Urls(r) <==>
        exists f :: f in Content.MdxFiles(projectsDir) && f.data.slug == s
  {
    ProjectUrlListed(Content.PostSlugs(blogDir, readingTime, timeOf), Content.ProjectSlugs(projectsDir, timeOf), s);
    Content.ProjectSlugsAreFileSlugs(projectsDir, timeOf, s);
  }
}

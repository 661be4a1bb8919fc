/** The content layer of `lib/content.ts`: blog posts and projects read from
    the `.mdx` files of two content directories.

    A directory is given as the sequence of its entries in `readdirSync` order,
    each already split by the front-matter parser into its data and its body;
    `None` stands for a directory that does not exist. The parsed data is cast
    to the front-matter type without any check, so every `.mdx` entry takes
    part. `readingTime` (the reading-time library's `.text`) and `timeOf`
    (`new Date(s).getTime()`) are parameters. */
module Content {
  import opened SeqUtil
  import NewestFirst

  datatype Stage = Seedling | Blooming | Harvest

  /** `featured_size`: "2x1", "1x2" or "1x1". */
  datatype FeaturedSize = Wide | Tall | Square

  datatype BlogFrontmatter = BlogFrontmatter(
    title: string,
    slug: string,
    date: string,
    excerpt: string,
    author: string,
    categories: seq<string>,
    featuredImage: Option<string>,
    published: bool)

  datatype ProjectLinks = ProjectLinks(live: Option<string>, repo: Option<string>, doc: Option<string>)

  datatype ProjectResult = ProjectResult(metric: string, value: string)

  datatype ProjectFrontmatter = ProjectFrontmatter(
    title: string,
    slug: string,
    stage: Stage,
    category: string,
    blurb: string,
    tags: seq<string>,
    updatedAt: string,
    featured: bool,
    featuredSize: Option<FeaturedSize>,
    sortOrder: Option<int>,
    heroImage: Option<string>,
    iconImage: Option<string>,
    techStack: seq<string>,
    links: Option<ProjectLinks>,
    results: Option<seq<ProjectResult>>)

  datatype BlogPost = BlogPost(frontmatter: BlogFrontmatter, content: string, readingTime: string)

  datatype Project = Project(frontmatter: ProjectFrontmatter, content: string)

  /** A directory entry: its file name, its parsed front matter and its body. */
  datatype File<F> = File(name: string, data: F, content: string)

  /** A content directory; `None` when it does not exist. */
  type Directory<F> = Option<seq<File<F>>>

  predicate EndsWith(s: string, suffix: string)
  {
    |suffix| <= |s| && s[|s| - |suffix|..] == suffix
  }

  predicate IsMdx<F>(f: File<F>)
  {
    EndsWith(f.name, ".mdx")
  }

  /** `getMdxFiles`: the `.mdx` entries of a directory in listing order, and
      none at all when the directory does not exist. */
  function MdxFiles<F(==,!new)>(dir: Directory<F>): (r: seq<File<F>>)
    ensures dir.None? ==> r == []
    ensures forall i :: 0 <= i < |r| ==> EndsWith(r[i].name, ".mdx")
    ensures dir.Some? ==> IsSubsequence(r, dir.value)
    ensures dir.Some? ==> forall i :: 0 <= i < |dir.value| && EndsWith(dir.value[i].name, ".mdx") ==> dir.value[i] in r
    ensures dir.Some? ==> forall f :: multiset(r)[f] == if IsMdx(f) then multiset(dir.value)[f] else 0
  {
    match dir
    case None => []
    case Some(files) =>
      var isMdx := (f: File<F>) => IsMdx(f);
      KeepIsFilter(files, isMdx);
      KeepMembers(files, isMdx);
      Keep(files, isMdx)
  }

  // --- Blog ---

  function ToPost(f: File<BlogFrontmatter>, readingTime: string -> string): BlogPost
  {
    BlogPost(f.data, f.content, readingTime(f.content))
  }

  /** The posts of the published files, in file order: the `map` that turns an
      unpublished file into `null`, followed by `filter(Boolean)`. */
  function PublishedPosts(files: seq<File<BlogFrontmatter>>, readingTime: string -> string): (r: seq<BlogPost>)
    ensures forall i :: 0 <= i < |r| ==>
      r[i].frontmatter.published && r[i].readingTime == readingTime(r[i].content)
    ensures forall j :: 0 <= j < |files| && files[j].data.published ==> ToPost(files[j], readingTime) in r
  {
    if files == [] then []
    else
      var rest := PublishedPosts(files[1..], readingTime);
      assert forall j :: 0 < j < |files| ==> files[j] == files[1..][j - 1];
      (if files[0].data.published then [ToPost(files[0], readingTime)] else []) + rest
  }

  predicate IsPublished(f: File<BlogFrontmatter>)
  {
    f.data.published
  }

  /** Position by position, the published posts are the published files'
      posts: each published file gives exactly one post, in file order. */
  lemma {:induction false} PublishedPostsArePublishedFiles(files: seq<File<BlogFrontmatter>>, readingTime: string -> string)
    ensures var posts := PublishedPosts(files, readingTime);
      var kept := Keep(files, IsPublished);
      |posts| == |kept| && forall i :: 0 <= i < |kept| ==> posts[i] == ToPost(kept[i], readingTime)
  {
    if files != [] {
      PublishedPostsArePublishedFiles(files[1..], readingTime);
      var posts := PublishedPosts(files, readingTime);
      var rest := PublishedPosts(files[1..], readingTime);
      var kept := Keep(files, IsPublished);
      var keptRest := Keep(files[1..], IsPublished);
      if files[0].data.published {
        assert posts == [ToPost(files[0], readingTime)] + rest;
        assert kept == [files[0]] + keptRest;
        forall i | 0 < i < |kept|
          ensures posts[i] == ToPost(kept[i], readingTime)
        {
          assert posts[i] == rest[i - 1] && kept[i] == keptRest[i - 1];
        }
      } else {
        assert posts == rest && kept == keptRest;
      }
    }
  }

  /** The sort key of a post: the time its `date` denotes. */
  function PostKey(timeOf: string -> int): BlogPost -> int
  {
    (p: BlogPost) => timeOf(p.frontmatter.date)
  }

  /** What `getAllPosts` returns. */
  function AllPosts(blogDir: Directory<BlogFrontmatter>, readingTime: string -> string, timeOf: string -> int): seq<BlogPost>
  {
    NewestFirst.SortNewestFirst(PublishedPosts(MdxFiles(blogDir), readingTime), PostKey(timeOf))
  }

  /** What `getPostSlugs` returns. */
  function PostSlugs(blogDir: Directory<BlogFrontmatter>, readingTime: string -> string, timeOf: string -> int): seq<string>
  {
    var posts := AllPosts(blogDir, readingTime, timeOf);
    seq(|posts|, i requires 0 <= i < |posts| => posts[i].frontmatter.slug)
  }

  /** `getAllPosts`: the published posts are collected into a fresh array,
      which is sorted in place, newest first. */
  method GetAllPosts(blogDir: Directory<BlogFrontmatter>, readingTime: string -> string, timeOf: string -> int)
    returns (posts: seq<BlogPost>)
    ensures posts == AllPosts(blogDir, readingTime, timeOf)
  {
    var published := PublishedPosts(MdxFiles(blogDir), readingTime);
    var a := new BlogPost[|published|](i requires 0 <= i < |published| => published[i]);
    assert a[..] == published;
    NewestFirst.SortInPlace(a, PostKey(timeOf));
    posts := a[..];
  }

  /** `getPostBySlug`: the first `.mdx` file, in listing order, whose slug is
      `slug`, published or not; `None` when there is none. */
  method GetPostBySlug(blogDir: Directory<BlogFrontmatter>, readingTime: string -> string, slug: string)
    returns (post: Option<BlogPost>)
    ensures var files := MdxFiles(blogDir);
      match post
      case None => forall i :: 0 <= i < |files| ==> files[i].data.slug != slug
      case Some(p) =>
        exists i :: 0 <= i < |files| && files[i].data.slug == slug &&
          (forall j :: 0 <= j < i ==> files[j].data.slug != slug) &&
          p == ToPost(files[i], readingTime)
  {
    var files := MdxFiles(blogDir);
    var i := 0;
    while i < |files|
      invariant 0 <= i <= |files|
      invariant forall j :: 0 <= j < i ==> files[j].data.slug != slug
    {
      if files[i].data.slug == slug {
        return Some(ToPost(files[i], readingTime));
      }
      i := i + 1;
    }
    return None;
  }

  /** `getPostSlugs`: the slugs of `getAllPosts()`, position by position. */
  method GetPostSlugs(blogDir: Directory<BlogFrontmatter>, readingTime: string -> string, timeOf: string -> int)
    returns (slugs: seq<string>)
    ensures var posts := AllPosts(blogDir, readingTime, timeOf);
      |slugs| == |posts| && forall i :: 0 <= i < |posts| ==> slugs[i] == posts[i].frontmatter.slug
    ensures slugs == PostSlugs(blogDir, readingTime, timeOf)
  {
    var posts := GetAllPosts(blogDir, readingTime, timeOf);
    slugs := seq(|posts|, i requires 0 <= i < |posts| => posts[i].frontmatter.slug);
  }

  /** Every post of `PublishedPosts` comes from a published file. */
  lemma {:induction false} PublishedPostsFromFiles(files: seq<File<BlogFrontmatter>>, readingTime: string -> string, p: BlogPost)
    requires p in PublishedPosts(files, readingTime)
    ensures exists f :: f in files && f.data.published && p == ToPost(f, readingTime)
  {
    if !(files[0].data.published && p == ToPost(files[0], readingTime)) {
      PublishedPostsFromFiles(files[1..], readingTime, p);
      var f :| f in files[1..] && f.data.published && p == ToPost(f, readingTime);
      assert f in files;
    }
  }

  lemma SameElements<T>(a: seq<T>, b: seq<T>)
    requires multiset(a) == multiset(b)
    ensures forall x :: x in a <==> x in b
  {
    forall x
      ensures x in a <==> x in b
    {
      assert x in a <==> x in multiset(a);
      assert x in b <==> x in multiset(b);
    }
  }

  /** `getAllPosts` lists exactly the published `.mdx` posts, each as often as
      there are files giving it, newest first, ties in listing order; every
      post's reading time is computed from its body alone. */
  lemma AllPostsArePublishedNewestFirst(blogDir: Directory<BlogFrontmatter>, readingTime: string -> string, timeOf: string -> int)
    ensures var posts := AllPosts(blogDir, readingTime, timeOf);
      var published := PublishedPosts(MdxFiles(blogDir), readingTime);
      && multiset(posts) == multiset(published)
      && NewestFirst.IsStableNewestFirst(posts, published, PostKey(timeOf))
      && (forall i :: 0 <= i < |posts| ==> posts[i].frontmatter.published)
      && (forall i :: 0 <= i < |posts| ==> posts[i].readingTime == readingTime(posts[i].content))
      && (forall f :: f in MdxFiles(blogDir) && f.data.published ==> ToPost(f, readingTime) in posts)
  {
    var posts := AllPosts(blogDir, readingTime, timeOf);
    var published := PublishedPosts(MdxFiles(blogDir), readingTime);
    NewestFirst.SortIsStableNewestFirst(published, PostKey(timeOf));
    SameElements(posts, published);
    forall i | 0 <= i < |posts|
      ensures posts[i].frontmatter.published && posts[i].readingTime == readingTime(posts[i].content)
    {
      assert posts[i] in published;
    }
    forall f | f in MdxFiles(blogDir) && f.data.published
      ensures ToPost(f, readingTime) in posts
    {
      var files := MdxFiles(blogDir);
      var j :| 0 <= j < |files| && files[j] == f;
      assert ToPost(f, readingTime) in published;
    }
  }

  /** A slug is listed by `getPostSlugs` exactly when some published `.mdx`
      file carries it. A draft's slug is therefore never listed, although
      `getPostBySlug` still finds the draft. */
  lemma PostSlugsArePublishedSlugs(blogDir: Directory<BlogFrontmatter>, readingTime: string -> string, timeOf: string -> int, s: string)
    ensures s in PostSlugs(blogDir, readingTime, timeOf) <==>
      exists f :: f in MdxFiles(blogDir) && f.data.published && f.data.slug == s
  {
    PostsAreThePublished(blogDir, readingTime, timeOf);
    SlugsOfPublished(MdxFiles(blogDir), AllPosts(blogDir, readingTime, timeOf), PostSlugs(blogDir, readingTime, timeOf), readingTime, s);
  }

  /** The slugs of any list holding exactly the published posts are the
      published files' slugs. */
  lemma SlugsOfPublished(files: seq<File<BlogFrontmatter>>, posts: seq<BlogPost>, slugs: seq<string>, readingTime: string -> string, s: string)
    requires |slugs| == |posts| && forall i :: 0 <= i < |posts| ==> slugs[i] == posts[i].frontmatter.slug
    requires forall p :: p in posts <==> p in PublishedPosts(files, readingTime)
    ensures s in slugs <==> exists f :: f in files && f.data.published && f.data.slug == s
  {
    if s in slugs {
      var i :| 0 <= i < |slugs| && slugs[i] == s;
      assert posts[i] in posts;
      PublishedPostsFromFiles(files, readingTime, posts[i]);
    }
    if exists f :: f in files && f.data.published && f.data.slug == s {
      var f :| f in files && f.data.published && f.data.slug == s;
      var j :| 0 <= j < |files| && files[j] == f;
      assert ToPost(f, readingTime) in posts;
      var i :| 0 <= i < |posts| && posts[i] == ToPost(f, readingTime);
      assert slugs[i] == s;
    }
  }

  /** Sorting neither adds nor loses a post. */
  lemma PostsAreThePublished(blogDir: Directory<BlogFrontmatter>, readingTime: string -> string, timeOf: string -> int)
    ensures forall p :: p in AllPosts(blogDir, readingTime, timeOf) <==> p in PublishedPosts(MdxFiles(blogDir), readingTime)
  {
    var published := PublishedPosts(MdxFiles(blogDir), readingTime);
    NewestFirst.SortIsStableNewestFirst(published, PostKey(timeOf));
    SameElements(AllPosts(blogDir, readingTime, timeOf), published);
  }

  // --- Projects ---

  function ToProject(f: File<ProjectFrontmatter>): Project
  {
    Project(f.data, f.content)
  }

  /** `files.map(...)`: one project per file, in file order. */
  function ProjectsOf(files: seq<File<ProjectFrontmatter>>): seq<Project>
  {
    seq(|files|, i requires 0 <= i < |files| => ToProject(files[i]))
  }

  /** The sort key of a project: the time its `updated_at` denotes. */
  function ProjectKey(timeOf: string -> int): Project -> int
  {
    (p: Project) => timeOf(p.frontmatter.updatedAt)
  }

  predicate IsFeatured(p: Project)
  {
    p.frontmatter.featured
  }

  /** What `getAllProjects` returns. */
  function AllProjects(projectsDir: Directory<ProjectFrontmatter>, timeOf: string -> int): seq<Project>
  {
    NewestFirst.SortNewestFirst(ProjectsOf(MdxFiles(projectsDir)), ProjectKey(timeOf))
  }

  /** What `getFeaturedProjects` returns. */
  function FeaturedProjects(projectsDir: Directory<ProjectFrontmatter>, timeOf: string -> int): seq<Project>
  {
    Keep(AllProjects(projectsDir, timeOf), IsFeatured)
  }

  /** What `getProjectSlugs` returns. */
  function ProjectSlugs(projectsDir: Directory<ProjectFrontmatter>, timeOf: string -> int): seq<string>
  {
    var projects := AllProjects(projectsDir, timeOf);
    seq(|projects|, i requires 0 <= i < |projects| => projects[i].frontmatter.slug)
  }

  /** `getAllProjects`: one project per `.mdx` file, collected into a fresh
      array which is sorted in place, newest first. */
  method GetAllProjects(projectsDir: Directory<ProjectFrontmatter>, timeOf: string -> int)
    returns (projects: seq<Project>)
    ensures projects == AllProjects(projectsDir, timeOf)
  {
    var files := MdxFiles(projectsDir);
    var a := new Project[|files|](i requires 0 <= i < |files| => ToProject(files[i]));
    assert a[..] == ProjectsOf(files);
    NewestFirst.SortInPlace(a, ProjectKey(timeOf));
    projects := a[..];
  }

  /** `getProjectBySlug`: the first `.mdx` file, in listing order, whose slug
      is `slug`; `None` when there is none. */
  method GetProjectBySlug(projectsDir: Directory<ProjectFrontmatter>, slug: string)
    returns (project: Option<Project>)
    ensures var files := MdxFiles(projectsDir);
      match project
      case None => forall i :: 0 <= i < |files| ==> files[i].data.slug != slug
      case Some(p) =>
        exists i :: 0 <= i < |files| && files[i].data.slug == slug &&
          (forall j :: 0 <= j < i ==> files[j].data.slug != slug) &&
          p == ToProject(files[i])
  {
    var files := MdxFiles(projectsDir);
    var i := 0;
    while i < |files|
      invariant 0 <= i <= |files|
      invariant forall j :: 0 <= j < i ==> files[j].data.slug != slug
    {
      if files[i].data.slug == slug {
        return Some(ToProject(files[i]));
      }
      i := i + 1;
    }
    return None;
  }

  /** `getFeaturedProjects`: `getAllProjects()` filtered on `featured`. */
  method GetFeaturedProjects(projectsDir: Directory<ProjectFrontmatter>, timeOf: string -> int)
    returns (featured: seq<Project>)
    ensures featured == FeaturedProjects(projectsDir, timeOf)
  {
    var projects := GetAllProjects(projectsDir, timeOf);
    featured := Keep(projects, IsFeatured);
  }

  /** `getProjectSlugs`: the slugs of `getAllProjects()`, position by position. */
  method GetProjectSlugs(projectsDir: Directory<ProjectFrontmatter>, timeOf: string -> int)
    returns (slugs: seq<string>)
    ensures var projects := AllProjects(projectsDir, timeOf);
      |slugs| == |projects| && forall i :: 0 <= i < |projects| ==> slugs[i] == projects[i].frontmatter.slug
    ensures slugs == ProjectSlugs(projectsDir, timeOf)
  {
    var projects := GetAllProjects(projectsDir, timeOf);
    slugs := seq(|projects|, i requires 0 <= i < |projects| => projects[i].frontmatter.slug);
  }

  /** `getAllProjects` drops no file: it lists one project per `.mdx` file,
      newest `updated_at` first, ties in listing order. */
  lemma AllProjectsAreEveryFileNewestFirst(projectsDir: Directory<ProjectFrontmatter>, timeOf: string -> int)
    ensures var projects := AllProjects(projectsDir, timeOf);
      var all := ProjectsOf(MdxFiles(projectsDir));
      && |projects| == |MdxFiles(projectsDir)|
      && multiset(projects) == multiset(all)
      && NewestFirst.IsStableNewestFirst(projects, all, ProjectKey(timeOf))
      && (forall f :: f in MdxFiles(projectsDir) ==> ToProject(f) in projects)
  {
    var projects := AllProjects(projectsDir, timeOf);
    var files := MdxFiles(projectsDir);
    var all := ProjectsOf(files);
    NewestFirst.SortIsStableNewestFirst(all, ProjectKey(timeOf));
    forall f | f in files
      ensures ToProject(f) in projects
    {
      var i :| 0 <= i < |files| && files[i] == f;
      assert all[i] == ToProject(f);
      assert ToProject(f) in multiset(all);
    }
  }

  /** `getFeaturedProjects` is exactly the featured part of `getAllProjects`:
      every element is featured, every featured project is kept as often as
      it occurs, and the newest-first order is kept. */
  lemma FeaturedProjectsAreTheFeaturedSubsequence(projectsDir: Directory<ProjectFrontmatter>, timeOf: string -> int)
    ensures var all := AllProjects(projectsDir, timeOf);
      var featured := FeaturedProjects(projectsDir, timeOf);
      && (forall i :: 0 <= i < |featured| ==> featured[i].frontmatter.featured)
      && IsSubsequence(featured, all)
      && (forall p :: multiset(featured)[p] == if p.frontmatter.featured then multiset(all)[p] else 0)
  {
    KeepIsFilter(AllProjects(projectsDir, timeOf), IsFeatured);
  }

  /** A slug is listed by `getProjectSlugs` exactly when some `.mdx` project
      file carries it: projects have no publication flag. */
  lemma ProjectSlugsAreFileSlugs(projectsDir: Directory<ProjectFrontmatter>, timeOf: string -> int, s: string)
    ensures s in ProjectSlugs(projectsDir, timeOf) <==>
      exists f :: f in MdxFiles(projectsDir) && f.data.slug == s
  {
    ProjectsAreTheFiles(projectsDir, timeOf);
    SlugsOfFiles(MdxFiles(projectsDir), AllProjects(projectsDir, timeOf), ProjectSlugs(projectsDir, timeOf), s);
  }

  /** The slugs of any list holding exactly the files' projects are the
      files' slugs. */
  lemma SlugsOfFiles(files: seq<File<ProjectFrontmatter>>, projects: seq<Project>, slugs: seq<string>, s: string)
    requires |slugs| == |projects| && forall i :: 0 <= i < |projects| ==> slugs[i] == projects[i].frontmatter.slug
    requires forall p :: p in projects <==> p in ProjectsOf(files)
    ensures s in slugs <==> exists f :: f in files && f.data.slug == s
  {
    var all := ProjectsOf(files);
    if s in slugs {
      var i :| 0 <= i < |slugs| && slugs[i] == s;
      assert projects[i] in all;
      var j :| 0 <= j < |all| && all[j] == projects[i];
      assert files[j] in files && files[j].data.slug == s;
    }
    if exists f :: f in files && f.data.slug == s {
      var f :| f in files && f.data.slug == s;
      var j :| 0 <= j < |files| && files[j] == f;
      assert all[j] == ToProject(f);
      assert ToProject(f) in projects;
      var i :| 0 <= i < |projects| && projects[i] == ToProject(f);
      assert slugs[i] == s;
    }
  }

  /** Sorting neither adds nor loses a project. */
  lemma ProjectsAreTheFiles(projectsDir: Directory<ProjectFrontmatter>, timeOf: string -> int)
    ensures forall p :: p in AllProjects(projectsDir, timeOf) <==> p in ProjectsOf(MdxFiles(projectsDir))
  {
    var all := ProjectsOf(MdxFiles(projectsDir));
    NewestFirst.SortIsStableNewestFirst(all, ProjectKey(timeOf));
    SameElements(AllProjects(projectsDir, timeOf), all);
  }
}

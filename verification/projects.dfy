/** The in-memory project catalogue (`src/lib/projects.ts`). The queries
    take the catalogue as a parameter; `Catalogue` is the list the site ships. */
module Projects {
  import opened Wrappers
  import opened Seqs
  import ContentTypes
  type Category = ContentTypes.Category

  datatype Links = Links(github: Option<string>, demo: Option<string>, website: Option<string>)

  /** A catalogue entry; `featured` may be left out (`None`). */
  datatype Project = Project(
    id: string,
    title: string,
    description: string,
    longDescription: Option<string>,
    image: Option<string>,
    tech: seq<string>,
    category: Category,
    links: Links,
    featured: Option<bool>,
    date: string)

  const ECommercePlatform := Project(
    "project-1",
    "E-Commerce Platform",
    "A full-stack e-commerce solution with real-time inventory management.",
    Some("Built a complete e-commerce platform from scratch with features including user authentication, product catalog, shopping cart, payment processing with Stripe, and admin dashboard for inventory management."),
    None,
    ["Next.js", "TypeScript", "PostgreSQL", "Stripe", "Tailwind CSS"],
    ContentTypes.Web,
    Links(Some("https://github.com/carlostbello"), Some("https://example.com"), None),
    Some(true),
    "2024-01-15")

  const TaskManagementApp := Project(
    "project-2",
    "Task Management App",
    "A collaborative task management tool with real-time updates.",
    Some("Developed a task management application that allows teams to collaborate in real-time, assign tasks, set deadlines, and track progress with visual boards and analytics."),
    None,
    ["React", "Node.js", "Socket.io", "MongoDB", "Express"],
    ContentTypes.Web,
    Links(Some("https://github.com/carlostbello"), None, None),
    Some(true),
    "2023-11-20")

  const CliDeveloperTool := Project(
    "project-3",
    "CLI Developer Tool",
    "A command-line tool for automating common development workflows.",
    Some("Created a CLI tool that helps developers automate repetitive tasks, manage project templates, and streamline their development workflow with customizable scripts."),
    None,
    ["Node.js", "TypeScript", "Commander.js", "Inquirer"],
    ContentTypes.Tool,
    Links(Some("https://github.com/carlostbello"), None, None),
    Some(false),
    "2023-09-10")

  const Catalogue: seq<Project> := [ECommercePlatform, TaskManagementApp, CliDeveloperTool]

  /** `featured` is truthy: present and true. */
  predicate IsFeatured(p: Project) {
    p.featured == Some(true)
  }

  predicate IsNotFeatured(p: Project) {
    !IsFeatured(p)
  }

  /** `getProjects`: the catalogue itself. */
  function GetProjects(catalogue: seq<Project>): (r: seq<Project>)
    ensures r == catalogue
  {
    catalogue
  }

  /** `getFeaturedProjects`: the featured projects in catalogue order. */
  function GetFeaturedProjects(catalogue: seq<Project>): (r: seq<Project>)
    ensures forall p :: p in r <==> p in catalogue && p.featured == Some(true)
    ensures forall p :: multiset(r)[p] == if p.featured == Some(true) then multiset(catalogue)[p] else 0
  {
    Filter(catalogue, IsFeatured)
  }

  /** The test `project.category === category`. */
  function InCategory(category: Category): Project -> bool {
    (p: Project) => p.category == category
  }

  /** `getProjectsByCategory`: the projects of one category in catalogue order. */
  function GetProjectsByCategory(catalogue: seq<Project>, category: Category): (r: seq<Project>)
    ensures forall p :: p in r <==> p in catalogue && p.category == category
    ensures forall p :: multiset(r)[p] == if p.category == category then multiset(catalogue)[p] else 0
  {
    Filter(catalogue, InCategory(category))
  }

  /** `getProjectById`: the first project with the id, `None` (`undefined`)
      when there is none. */
  function GetProjectById(catalogue: seq<Project>, id: string): (r: Option<Project>)
    ensures r.None? <==> forall p :: p in catalogue ==> p.id != id
    ensures r.Some? ==> exists i :: 0 <= i < |catalogue| && catalogue[i] == r.value && r.value.id == id
                                    && forall j :: 0 <= j < i ==> catalogue[j].id != id
  {
    match FindFirst(catalogue, (p: Project) => p.id == id)
    case None => None
    case Some(i) => Some(catalogue[i])
  }

  /** The featured projects and the rest split the whole catalogue, and
      neither query changes it. */
  lemma FeaturedPartition(catalogue: seq<Project>)
    ensures multiset(GetFeaturedProjects(catalogue)) + multiset(Filter(catalogue, IsNotFeatured))
         == multiset(GetProjects(catalogue))
    ensures |GetFeaturedProjects(catalogue)| + |Filter(catalogue, IsNotFeatured)| == |GetProjects(catalogue)|
  {
    FilterPartition(catalogue, IsFeatured, IsNotFeatured);
  }

  /** The featured query keeps catalogue order: featuring a concatenation is
      concatenating the featured parts. */
  lemma FeaturedKeepsOrder(a: seq<Project>, b: seq<Project>)
    ensures GetFeaturedProjects(a + b) == GetFeaturedProjects(a) + GetFeaturedProjects(b)
  {
    FilterAppend(a, b, IsFeatured);
  }

  /** The category query keeps catalogue order in the same sense. */
  lemma ByCategoryKeepsOrder(a: seq<Project>, b: seq<Project>, category: Category)
    ensures GetProjectsByCategory(a + b, category)
         == GetProjectsByCategory(a, category) + GetProjectsByCategory(b, category)
  {
    FilterAppend(a, b, InCategory(category));
  }

  /** Each category query returns only projects of that category, so running
      it again changes nothing. */
  lemma ByCategoryIdempotent(catalogue: seq<Project>, category: Category)
    ensures GetProjectsByCategory(GetProjectsByCategory(catalogue, category), category)
         == GetProjectsByCategory(catalogue, category)
  {
    FilterIdempotent(catalogue, InCategory(category));
  }

  /** With distinct ids, looking up each project's id finds that project. */
  lemma {:induction false} LookupFindsEachProject(catalogue: seq<Project>)
    requires forall i, j :: 0 <= i < j < |catalogue| ==> catalogue[i].id != catalogue[j].id
    ensures forall p :: p in GetProjects(catalogue) ==> GetProjectById(catalogue, p.id) == Some(p)
  {
    forall p | p in catalogue ensures GetProjectById(catalogue, p.id) == Some(p) {
      var r := GetProjectById(catalogue, p.id);
      var k :| 0 <= k < |catalogue| && catalogue[k] == p;
      var i :| 0 <= i < |catalogue| && catalogue[i] == r.value && r.value.id == p.id;
      assert i == k;
    }
  }

  /** The shipped catalogue has two featured projects, the first two. */
  lemma CatalogueFeatured()
    ensures |GetProjects(Catalogue)| == 3
    ensures GetFeaturedProjects(Catalogue) == Catalogue[..2]
  {
    var c := Catalogue;
    assert IsFeatured(c[0]) && IsFeatured(c[1]) && !IsFeatured(c[2]);
    assert c[2..][1..] == [];
    assert c[1..][1..] == c[2..];
    assert Filter(c[2..], IsFeatured) == [];
    assert Filter(c[1..], IsFeatured) == [c[1]];
    assert c[..2] == [c[0]] + [c[1]];
  }

  /** The shipped catalogue's web projects are its first two. */
  lemma CatalogueWebProjects()
    ensures GetProjectsByCategory(Catalogue, ContentTypes.Web) == Catalogue[..2]
  {
    var c := Catalogue;
    var web := InCategory(ContentTypes.Web);
    assert web(c[0]) && web(c[1]) && !web(c[2]);
    assert c[2..][1..] == [];
    assert c[1..][1..] == c[2..];
    assert Filter(c[2..], web) == [];
    assert Filter(c[1..], web) == [c[1]];
    assert c[..2] == [c[0]] + [c[1]];
  }

  /** ... its one tool is the last, and it has no mobile project. */
  lemma CatalogueToolAndMobileProjects()
    ensures GetProjectsByCategory(Catalogue, ContentTypes.Tool) == Catalogue[2..]
    ensures GetProjectsByCategory(Catalogue, ContentTypes.Mobile) == []
  {
    var c := Catalogue;
    var tool, mobile := InCategory(ContentTypes.Tool), InCategory(ContentTypes.Mobile);
    assert !tool(c[0]) && !tool(c[1]) && tool(c[2]);
    assert !mobile(c[0]) && !mobile(c[1]) && !mobile(c[2]);
    assert c[2..][1..] == [];
    assert c[1..][1..] == c[2..];
    assert Filter(c[2..], tool) == c[2..];
    assert Filter(c[1..], tool) == c[2..];
    assert Filter(c[2..], mobile) == [];
    assert Filter(c[1..], mobile) == [];
  }

  /** Ids of the shipped catalogue are distinct, so each id finds its project. */
  lemma CatalogueLookup()
    ensures GetProjectById(Catalogue, "project-3") == Some(Catalogue[2])
    ensures GetProjectById(Catalogue, "project-4") == None
  {
    var c := Catalogue;
    assert c[0].id == "project-1" && c[1].id == "project-2" && c[2].id == "project-3";
    assert "project-1"[8] == '1' && "project-2"[8] == '2' && "project-3"[8] == '3' && "project-4"[8] == '4';
    var three := GetProjectById(c, "project-3");
    assert three.Some? by {
      assert c[2] in c;
    }
    var i :| 0 <= i < |c| && c[i] == three.value && three.value.id == "project-3";
    assert i == 2;
  }
}

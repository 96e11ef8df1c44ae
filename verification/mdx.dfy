/** The file-based blog loader (`src/lib/mdx.ts`).

    The directory listing and the parsed front matter are inputs: a missing
    posts directory is `None`, and each listed file carries its parsed
    document, or `None` when reading or parsing it throws. Dates are integer
    timestamps and `now` stands for the current time. */
module Mdx {
  import opened Wrappers
  import opened Seqs
  import opened Sorting
  import opened Strings

  const Extension := ".mdx"
  const DefaultTitle := "Untitled"
  const DefaultExcerpt := ""
  const DefaultAuthor := "Carlos Bello"

  /** Front-matter fields as parsed; `None` is an absent or `null` field. */
  datatype FrontMatter = FrontMatter(
    title: Option<string>,
    date: Option<int>,
    excerpt: Option<string>,
    tags: Option<seq<string>>,
    author: Option<string>)

  /** A parsed file: its front matter and the body after it. */
  datatype Document = Document(data: FrontMatter, content: string)

  /** One directory entry; `document` is `None` when reading or parsing fails. */
  datatype DirEntry = DirEntry(name: string, document: Option<Document>)

  datatype Post = Post(
    slug: string,
    title: string,
    date: int,
    excerpt: string,
    tags: seq<string>,
    author: string,
    content: string)

  /** The exception that escapes the list operation: the first `.mdx` file
      that could not be read or parsed. */
  datatype LoadError = Unreadable(fileName: string)

  /** A string field counts as set when it is present and non-empty; the
      empty string is falsy, so `field || fallback` falls back for it too. */
  predicate IsSet(v: Option<string>) {
    v.Some? && v.value != ""
  }

  function OrDefault(v: Option<string>, fallback: string): string {
    if IsSet(v) then v.value else fallback
  }

  /** The record built from one document, with the field defaults applied. */
  function ToPost(slug: string, doc: Document, now: int): (p: Post)
    ensures p.slug == slug && p.content == doc.content
    ensures IsSet(doc.data.title) ==> p.title == doc.data.title.value
    ensures !IsSet(doc.data.title) ==> p.title == DefaultTitle
    ensures IsSet(doc.data.excerpt) ==> p.excerpt == doc.data.excerpt.value
    ensures !IsSet(doc.data.excerpt) ==> p.excerpt == DefaultExcerpt
    ensures IsSet(doc.data.author) ==> p.author == doc.data.author.value
    ensures !IsSet(doc.data.author) ==> p.author == DefaultAuthor
    ensures doc.data.tags.Some? ==> p.tags == doc.data.tags.value
    ensures doc.data.tags.None? ==> p.tags == []
    ensures doc.data.date.Some? ==> p.date == doc.data.date.value
    ensures doc.data.date.None? ==> p.date == now
    ensures p.title != "" && p.author != ""
  {
    Post(
      slug,
      OrDefault(doc.data.title, DefaultTitle),
      doc.data.date.GetOr(now),
      OrDefault(doc.data.excerpt, DefaultExcerpt),
      doc.data.tags.GetOr([]),
      OrDefault(doc.data.author, DefaultAuthor),
      doc.content)
  }

  /** Front matter that states every field of `p` explicitly. */
  function FrontMatterOf(p: Post): FrontMatter {
    FrontMatter(Some(p.title), Some(p.date), Some(p.excerpt), Some(p.tags), Some(p.author))
  }

  /** Writing a post's fields out as front matter and loading the file again
      gives back the same post, whatever the current time. */
  lemma ReloadRoundTrip(p: Post, now: int)
    requires p.title != "" && p.author != ""
    ensures ToPost(p.slug, Document(FrontMatterOf(p), p.content), now) == p
  {
  }

  predicate IsMdx(e: DirEntry) {
    EndsWith(e.name, Extension)
  }

  /** The slug of a file: its name without the trailing extension. */
  function SlugOf(fileName: string): string {
    StripSuffix(fileName, Extension)
  }

  /** A `.mdx` file name is its slug followed by the extension, and the slug
      is four characters shorter. */
  lemma SlugRoundTrip(fileName: string)
    requires EndsWith(fileName, Extension)
    ensures SlugOf(fileName) + Extension == fileName
    ensures |SlugOf(fileName)| == |fileName| - |Extension|
  {
  }

  /** The file looked up for a slug has that slug again. */
  lemma FileNameRoundTrip(slug: string)
    ensures EndsWith(slug + Extension, Extension)
    ensures SlugOf(slug + Extension) == slug
  {
    StripAppended(slug, Extension);
  }

  /** The record of a readable directory entry. */
  function Loaded(e: DirEntry, now: int): Post
    requires e.document.Some?
  {
    ToPost(SlugOf(e.name), e.document.value, now)
  }

  /** `files[i]` is the first file that cannot be read or parsed. */
  predicate FirstUnreadable(files: seq<DirEntry>, i: int) {
    0 <= i < |files| && files[i].document.None?
    && forall j :: 0 <= j < i ==> files[j].document.Some?
  }

  /** Reads every file in order; the first unreadable one aborts the whole list. */
  function LoadAll(files: seq<DirEntry>, now: int): (r: Result<seq<Post>, LoadError>)
    ensures r.Success? <==> forall i :: 0 <= i < |files| ==> files[i].document.Some?
    ensures r.Success? ==> |r.value| == |files|
    ensures r.Success? ==> forall i :: 0 <= i < |files| ==> r.value[i] == Loaded(files[i], now)
    ensures r.Failure? ==> exists i :: FirstUnreadable(files, i) && r.error == Unreadable(files[i].name)
  {
    if |files| == 0 then Success([])
    else if files[0].document.None? then Failure(Unreadable(files[0].name))
    else
      match LoadAll(files[1..], now)
      case Failure(e) => Failure(e)
      case Success(rest) => Success([Loaded(files[0], now)] + rest)
  }

  /** `a` may be listed before `b`: it is at least as recent. */
  predicate NewerOrSame(a: Post, b: Post) {
    a.date >= b.date
  }

  lemma NewerOrSameIsTotalPreorder()
    ensures TotalPreorder(NewerOrSame)
  {
  }

  /** The posts newest first, posts with equal dates in listing order. */
  function SortNewestFirst(posts: seq<Post>): (r: seq<Post>)
    ensures multiset(r) == multiset(posts)
    ensures forall i, j :: 0 <= i < j < |r| ==> r[i].date >= r[j].date
  {
    NewerOrSameIsTotalPreorder();
    InsertionSort(posts, NewerOrSame)
  }

  /** Every `.mdx` entry of the directory can be read and parsed. */
  predicate AllReadable(entries: seq<DirEntry>) {
    forall e :: e in entries && IsMdx(e) ==> e.document.Some?
  }

  /** Loading the `.mdx` files succeeds exactly when all of them are readable. */
  lemma LoadsWhenAllReadable(entries: seq<DirEntry>, now: int)
    ensures LoadAll(Filter(entries, IsMdx), now).Success? <==> AllReadable(entries)
  {
    var files := Filter(entries, IsMdx);
    assert forall i :: 0 <= i < |files| ==> files[i] in entries && IsMdx(files[i]);
    if LoadAll(files, now).Success? {
      forall e | e in entries && IsMdx(e) ensures e.document.Some? {
        assert e in files;
      }
    }
  }

  /** `getAllPosts`: one record per `.mdx` file, newest first. */
  function GetAllPosts(dir: Option<seq<DirEntry>>, now: int): (r: Result<seq<Post>, LoadError>)
    ensures dir.None? ==> r == Success([])
    ensures dir.Some? ==> (r.Success? <==> AllReadable(dir.value))
    ensures dir.Some? && r.Failure? ==>
              exists i :: FirstUnreadable(Filter(dir.value, IsMdx), i)
                          && r.error == Unreadable(Filter(dir.value, IsMdx)[i].name)
    ensures dir.Some? && r.Success? ==> |r.value| == |Filter(dir.value, IsMdx)|
    ensures r.Success? ==> forall i, j :: 0 <= i < j < |r.value| ==> r.value[i].date >= r.value[j].date
  {
    match dir
    case None => Success([])
    case Some(entries) =>
      var loaded := LoadAll(Filter(entries, IsMdx), now);
      LoadsWhenAllReadable(entries, now);
      if loaded.Failure? then Failure(loaded.error)
      else Success(SortNewestFirst(loaded.value))
  }

  /** On success the list is the loaded `.mdx` files, newest first: a
      permutation of the records in directory order. */
  lemma ListedAreSortedLoads(entries: seq<DirEntry>, now: int)
    requires AllReadable(entries)
    ensures LoadAll(Filter(entries, IsMdx), now).Success?
    ensures GetAllPosts(Some(entries), now).value
         == SortNewestFirst(LoadAll(Filter(entries, IsMdx), now).value)
    ensures multiset(GetAllPosts(Some(entries), now).value)
         == multiset(LoadAll(Filter(entries, IsMdx), now).value)
  {
  }

  /** Every listed post is the record of a `.mdx` file of the directory, and
      its slug with the extension is that file's name. */
  lemma {:induction false} ListedPostsComeFromFiles(entries: seq<DirEntry>, now: int)
    requires AllReadable(entries)
    ensures forall p :: p in GetAllPosts(Some(entries), now).value ==>
              exists e :: e in entries && IsMdx(e) && e.document.Some? && p == Loaded(e, now)
                          && p.slug + Extension == e.name
  {
    ListedAreSortedLoads(entries, now);
    var files := Filter(entries, IsMdx);
    var loaded := LoadAll(files, now).value;
    forall p | p in GetAllPosts(Some(entries), now).value
      ensures exists e :: e in entries && IsMdx(e) && e.document.Some? && p == Loaded(e, now)
                          && p.slug + Extension == e.name
    {
      assert p in multiset(loaded);
      var i :| 0 <= i < |loaded| && loaded[i] == p;
      var e := files[i];
      assert e in files;
      SlugRoundTrip(e.name);
      assert e in entries && IsMdx(e) && e.document.Some? && p == Loaded(e, now);
    }
  }

  /** Every `.mdx` file of the directory yields a listed post. */
  lemma {:induction false} FilesAreListed(entries: seq<DirEntry>, now: int)
    requires AllReadable(entries)
    ensures forall e :: e in entries && IsMdx(e) ==>
              e.document.Some? && Loaded(e, now) in GetAllPosts(Some(entries), now).value
  {
    ListedAreSortedLoads(entries, now);
    var files := Filter(entries, IsMdx);
    var loaded := LoadAll(files, now).value;
    forall e | e in entries && IsMdx(e)
      ensures e.document.Some? && Loaded(e, now) in GetAllPosts(Some(entries), now).value
    {
      assert e in files;
      var i :| 0 <= i < |files| && files[i] == e;
      assert loaded[i] in multiset(GetAllPosts(Some(entries), now).value);
    }
  }

  /** The sort is stable: posts sharing a date keep the directory's order. */
  lemma GetAllPostsKeepsListingOrderOnTies(entries: seq<DirEntry>, now: int, v: Post)
    requires AllReadable(entries)
    ensures Ties(GetAllPosts(Some(entries), now).value, v, NewerOrSame)
         == Ties(LoadAll(Filter(entries, IsMdx), now).value, v, NewerOrSame)
  {
    NewerOrSameIsTotalPreorder();
    InsertionSortStable(LoadAll(Filter(entries, IsMdx), now).value, v, NewerOrSame);
  }

  /** The test `entry.name === name`. */
  function Named(name: string): DirEntry -> bool {
    (e: DirEntry) => e.name == name
  }

  /** `entries[i]` is the first entry called `name`. */
  predicate FirstNamed(entries: seq<DirEntry>, name: string, i: int) {
    0 <= i < |entries| && entries[i].name == name
    && forall j :: 0 <= j < i ==> entries[j].name != name
  }

  /** There is at most one first entry of a given name. */
  lemma FirstNamedUnique(entries: seq<DirEntry>, name: string, i: int, k: int)
    requires FirstNamed(entries, name, i) && FirstNamed(entries, name, k)
    ensures i == k
  {
    assert !(i < k) && !(k < i);
  }

  /** The search for `name` finds the first entry so called, or reports
      that no entry is. */
  lemma FindFirstNamed(entries: seq<DirEntry>, name: string)
    ensures FindFirst(entries, Named(name)).Some? ==> FirstNamed(entries, name, FindFirst(entries, Named(name)).value)
    ensures FindFirst(entries, Named(name)).None? <==> forall e :: e in entries ==> e.name != name
  {
    var found := FindFirst(entries, Named(name));
    if found.Some? {
      assert Named(name)(entries[found.value]);
      forall j | 0 <= j < found.value ensures entries[j].name != name {
        assert !Named(name)(entries[j]);
      }
    } else {
      forall e | e in entries ensures e.name != name {
        var j :| 0 <= j < |entries| && entries[j] == e;
        assert !Named(name)(entries[j]);
      }
    }
  }

  /** `getPostBySlug`: the file `slug + ".mdx"`, loaded with the same defaults;
      `None` when the directory or the file is missing or the file cannot be
      read or parsed. */
  function GetPostBySlug(dir: Option<seq<DirEntry>>, slug: string, now: int): (r: Option<Post>)
    ensures r.Some? ==> r.value.slug == slug
    ensures r.Some? && dir.Some? ==>
              exists e :: e in dir.value && e.name == slug + Extension && e.document.Some?
                          && r.value == ToPost(slug, e.document.value, now)
    ensures dir.None? ==> r.None?
    ensures dir.Some? && (forall e :: e in dir.value ==> e.name != slug + Extension) ==> r.None?
    ensures dir.Some? ==> forall i :: FirstNamed(dir.value, slug + Extension, i) ==>
              r == (if dir.value[i].document.Some? then Some(ToPost(slug, dir.value[i].document.value, now)) else None)
  {
    match dir
    case None => None
    case Some(entries) =>
      var name := slug + Extension;
      FindFirstNamed(entries, name);
      match FindFirst(entries, Named(name))
      case None => None
      case Some(i) =>
        assert forall k :: FirstNamed(entries, name, k) ==> k == i by {
          forall k | FirstNamed(entries, name, k) ensures k == i {
            FirstNamedUnique(entries, name, i, k);
          }
        }
        if entries[i].document.None? then None
        else Some(ToPost(slug, entries[i].document.value, now))
  }

  /** No two entries of a directory share a name. */
  predicate UniqueNames(entries: seq<DirEntry>) {
    forall i, j :: 0 <= i < j < |entries| ==> entries[i].name != entries[j].name
  }

  /** With distinct names, a present and readable `slug + ".mdx"` is found
      and loaded with the defaults. */
  lemma PresentAndReadableIsFound(entries: seq<DirEntry>, slug: string, now: int, e: DirEntry)
    requires UniqueNames(entries)
    requires e in entries && e.name == slug + Extension && e.document.Some?
    ensures GetPostBySlug(Some(entries), slug, now) == Some(ToPost(slug, e.document.value, now))
  {
    var k :| 0 <= k < |entries| && entries[k] == e;
    assert FirstNamed(entries, slug + Extension, k);
  }

  /** A `slug + ".mdx"` that cannot be read or parsed gives `None`, the
      `null` of the caught exception. */
  lemma UnreadableIsNone(entries: seq<DirEntry>, slug: string, now: int, e: DirEntry)
    requires UniqueNames(entries)
    requires e in entries && e.name == slug + Extension && e.document.None?
    ensures GetPostBySlug(Some(entries), slug, now) == None
  {
    var k :| 0 <= k < |entries| && entries[k] == e;
    assert FirstNamed(entries, slug + Extension, k);
  }

  /** The two read paths agree: every listed post is what a lookup of its
      slug returns. */
  lemma {:induction false} ListedPostsFoundBySlug(entries: seq<DirEntry>, now: int)
    requires UniqueNames(entries)
    requires AllReadable(entries)
    ensures forall p :: p in GetAllPosts(Some(entries), now).value ==>
              GetPostBySlug(Some(entries), p.slug, now) == Some(p)
  {
    ListedPostsComeFromFiles(entries, now);
    forall p | p in GetAllPosts(Some(entries), now).value
      ensures GetPostBySlug(Some(entries), p.slug, now) == Some(p)
    {
      var e :| e in entries && IsMdx(e) && e.document.Some? && p == Loaded(e, now)
               && p.slug + Extension == e.name;
      PresentAndReadableIsFound(entries, p.slug, now, e);
    }
  }

  /** ... and every post a slug lookup finds is also in the list. */
  lemma {:induction false} FoundBySlugIsListed(entries: seq<DirEntry>, slug: string, now: int)
    requires AllReadable(entries)
    requires exists e :: e in entries && e.name == slug + Extension
    ensures GetPostBySlug(Some(entries), slug, now).Some?
    ensures GetPostBySlug(Some(entries), slug, now).value in GetAllPosts(Some(entries), now).value
  {
    FilesAreListed(entries, now);
    FindFirstNamed(entries, slug + Extension);
    var e := entries[FindFirst(entries, Named(slug + Extension)).value];
    FileNameRoundTrip(slug);
    assert IsMdx(e);
    assert GetPostBySlug(Some(entries), slug, now) == Some(Loaded(e, now));
  }

  /** One post's tags added to a strictly increasing sequence. */
  function AddTags(acc: seq<string>, tags: seq<string>): (r: seq<string>)
    requires StrictlyIncreasing(acc)
    ensures StrictlyIncreasing(r)
    ensures forall t :: t in r <==> t in acc || t in tags
    decreases |tags|
  {
    if |tags| == 0 then acc
    else
      assert tags == [tags[0]] + tags[1..];
      AddTags(AddUnique(acc, tags[0]), tags[1..])
  }

  /** The tags of every post folded into a strictly increasing sequence. */
  function CollectTags(acc: seq<string>, posts: seq<Post>): (r: seq<string>)
    requires StrictlyIncreasing(acc)
    ensures StrictlyIncreasing(r)
    ensures forall t :: t in r <==> t in acc || exists p :: p in posts && t in p.tags
    decreases |posts|
  {
    if |posts| == 0 then acc
    else
      assert posts == [posts[0]] + posts[1..];
      CollectTags(AddTags(acc, posts[0].tags), posts[1..])
  }

  /** `getAllTags`: every tag of every post once, in ascending order. */
  function GetAllTags(dir: Option<seq<DirEntry>>, now: int): (r: Result<seq<string>, LoadError>)
    ensures r.Success? <==> GetAllPosts(dir, now).Success?
    ensures r.Failure? ==> r.error == GetAllPosts(dir, now).error
    ensures r.Success? ==> StrictlyIncreasing(r.value)
    ensures r.Success? ==> forall t :: t in r.value <==>
              exists p :: p in GetAllPosts(dir, now).value && t in p.tags
  {
    match GetAllPosts(dir, now)
    case Failure(e) => Failure(e)
    case Success(posts) => Success(CollectTags([], posts))
  }

  /** The tag list is the only strictly increasing listing of the tag set:
      any other sorted, duplicate-free listing of the same tags equals it. */
  lemma AllTagsIsTheSortedTagSet(dir: Option<seq<DirEntry>>, now: int, listing: seq<string>)
    requires GetAllPosts(dir, now).Success?
    requires StrictlyIncreasing(listing)
    requires forall t :: t in listing <==> exists p :: p in GetAllPosts(dir, now).value && t in p.tags
    ensures GetAllTags(dir, now) == Success(listing)
  {
    StrictlyIncreasingUnique(GetAllTags(dir, now).value, listing);
  }
}

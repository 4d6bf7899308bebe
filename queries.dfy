/** The read handlers of backend.py as functions of the tables they query,
    and the lookups the write handlers make before they change anything. */
module Queries {
  import opened Schema
  import opened Lookup

  /** The `.limit(50)` of the recent-posts query. */
  const RECENT_POSTS_LIMIT: nat := 50

  /** No two posts share an id (the primary key of `post`). */
  predicate UniquePostIds(posts: seq<Post>)
  {
    forall i, j :: 0 <= i < |posts| && 0 <= j < |posts| && posts[i].id == posts[j].id ==> i == j
  }

  // ----- Students -----

  /** `get_student`: the student row with the given id, or the not-found
      payload. The `student` table is keyed by id. */
  function GetStudent(students: map<int, Student>, id: int): (r: Reply<Student>)
    requires forall k :: k in students ==> students[k].id == k
    ensures r.Ok? <==> exists k :: k in students && students[k].id == id
    ensures r.Ok? ==> r.value in students.Values && r.value.id == id
    ensures r.Error? ==> r.failure == StudentNotFound
  {
    if id in students then
      assert students[id] in students.Values;
      Ok(students[id])
    else
      Error(StudentNotFound)
  }

  /** True when some student already uses `email` (the unique column). */
  predicate EmailTaken(students: map<int, Student>, email: string)
  {
    exists k :: k in students && students[k].email == email
  }

  // ----- Careers and categories -----

  /** `Career.query.filter_by(career_name=name).first()`. */
  function FindCareer(careers: seq<Career>, name: string): (r: Option<Career>)
    ensures r.Some? ==> r.value in careers && r.value.careerName == name
    ensures r.None? <==> forall c :: c in careers ==> c.careerName != name
  {
    First(careers, (c: Career) => c.careerName == name)
  }

  /** `Category.query.filter_by(name=name).first()`: category names are not
      unique, so this is the first one with that name in table order. */
  function FindCategory(categories: seq<Category>, name: string): (r: Option<Category>)
    ensures r.None? <==> forall c :: c in categories ==> c.name != name
    ensures r.Some? ==> exists i :: 0 <= i < |categories| && categories[i] == r.value && r.value.name == name
                                  && forall j :: 0 <= j < i ==> categories[j].name != name
  {
    match FirstIndex(categories, (c: Category) => c.name == name)
    case None => None
    case Some(i) => Some(categories[i])
  }

  /** The careers `publish` looks up, one per name in order; none as soon as
      one name is missing. */
  function LookupCareers(careers: seq<Career>, names: seq<string>): (r: Option<seq<Career>>)
    ensures r.None? <==> exists i :: 0 <= i < |names| && FindCareer(careers, names[i]).None?
    ensures r.Some? ==> |r.value| == |names|
    ensures r.Some? ==> forall i :: 0 <= i < |names| ==> r.value[i] in careers && r.value[i].careerName == names[i]
  {
    if names == [] then Some([])
    else
      var init := names[..|names| - 1];
      assert forall i :: 0 <= i < |init| ==> init[i] == names[i];
      match LookupCareers(careers, init)
      case None => None
      case Some(found) =>
        match FindCareer(careers, names[|names| - 1])
        case None => None
        case Some(c) => Some(found + [c])
  }

  /** The ids of the given careers, in order: the rows `publish` adds to the
      `careers` join table for a new post. */
  function IdsOf(cs: seq<Career>): seq<int>
  {
    seq(|cs|, i requires 0 <= i < |cs| => cs[i].id)
  }

  // ----- Posts -----

  /** Position of the post `filter_by(id=id, status='active').first()` finds. */
  function ActivePostIndex(posts: seq<Post>, id: int): (r: Option<nat>)
    ensures r.Some? ==> r.value < |posts| && posts[r.value].id == id && posts[r.value].status == Active
    ensures r.None? <==> forall p :: p in posts ==> !(p.id == id && p.status == Active)
  {
    FirstIndex(posts, (p: Post) => p.id == id && p.status == Active)
  }

  /** `get_sinlge_post`: the post with that id if it is active; a post that
      exists but is in process is as unavailable as a missing one. */
  function GetSinglePost(posts: seq<Post>, id: int): (r: Reply<Post>)
    ensures r.Ok? ==> r.value in posts && r.value.id == id && r.value.status == Active
    ensures r.Error? <==> forall p :: p in posts ==> !(p.id == id && p.status == Active)
    ensures r.Error? ==> r.failure == PostUnavailable
  {
    match ActivePostIndex(posts, id)
    case None => Error(PostUnavailable)
    case Some(i) => Ok(posts[i])
  }

  /** `get_active_posts`: exactly the student's own active posts, each as
      often as the table holds it. The student need not exist. */
  function GetActivePosts(posts: seq<Post>, studentId: int): (r: seq<Post>)
    ensures forall p :: multiset(r)[p] == (if p.studentId == studentId && p.status == Active then multiset(posts)[p] else 0)
  {
    Filter(posts, (p: Post) => p.studentId == studentId && p.status == Active)
  }

  /** `get_all_posts_by_category`: every post of the category, whatever its
      status, or the not-found payload when no category has that id. */
  function GetPostsByCategory(categories: seq<Category>, posts: seq<Post>, categoryId: int): (r: Reply<seq<Post>>)
    ensures r.Error? <==> forall c :: c in categories ==> c.id != categoryId
    ensures r.Error? ==> r.failure == CategoryNotFound
    ensures r.Ok? ==> forall p :: multiset(r.value)[p] == (if p.categoryId == categoryId then multiset(posts)[p] else 0)
  {
    match First(categories, (c: Category) => c.id == categoryId)
    case None => Error(CategoryNotFound)
    case Some(c) => Ok(Filter(posts, (p: Post) => p.categoryId == c.id))
  }

  // ----- Recent posts -----

  /** The filter of `get_recent_posts`: active and not owned by the student. */
  predicate IsRecentFor(p: Post, studentId: int)
  {
    p.studentId != studentId && p.status == Active
  }

  /** Ordered as `order_by(desc(Post.id))`. */
  predicate NewestFirst(s: seq<Post>)
  {
    forall i, j :: 0 <= i < j < |s| ==> s[i].id >= s[j].id
  }

  lemma PrependNewest(x: Post, s: seq<Post>)
    requires NewestFirst(s)
    requires forall k :: 0 <= k < |s| ==> s[k].id <= x.id
    ensures NewestFirst([x] + s)
  {
    var r := [x] + s;
    forall i, j | 0 <= i < j < |r| ensures r[i].id >= r[j].id {
      assert r[j] == s[j - 1];
      if i > 0 { assert r[i] == s[i - 1]; }
    }
  }

  /** Inserts `p` into a newest-first sequence, keeping it newest-first. */
  function InsertNewestFirst(p: Post, s: seq<Post>): (r: seq<Post>)
    requires NewestFirst(s)
    ensures NewestFirst(r)
    ensures multiset(r) == multiset(s) + multiset{p}
  {
    if s == [] || p.id >= s[0].id then
      PrependNewest(p, s);
      [p] + s
    else
      var rest := InsertNewestFirst(p, s[1..]);
      assert s == [s[0]] + s[1..];
      assert forall k :: 0 <= k < |rest| ==> rest[k].id <= s[0].id by {
        forall k | 0 <= k < |rest| ensures rest[k].id <= s[0].id {
          assert rest[k] in multiset(rest);
          assert rest[k] == p || rest[k] in multiset(s[1..]);
        }
      }
      PrependNewest(s[0], rest);
      [s[0]] + rest
  }

  /** The posts of `s`, reordered so that ids decrease. */
  function SortNewestFirst(s: seq<Post>): (r: seq<Post>)
    ensures NewestFirst(r)
    ensures multiset(r) == multiset(s)
  {
    if s == [] then []
    else
      assert s == [s[0]] + s[1..];
      InsertNewestFirst(s[0], SortNewestFirst(s[1..]))
  }

  /** The posts `get_recent_posts` chooses from, in table order. */
  function RecentCandidates(posts: seq<Post>, studentId: int): (r: seq<Post>)
    ensures forall x :: multiset(r)[x] == (if IsRecentFor(x, studentId) then multiset(posts)[x] else 0)
  {
    Filter(posts, (p: Post) => IsRecentFor(p, studentId))
  }

  /** The first `limit` posts of a newest-first sequence (`.limit(n)`). */
  function Newest(s: seq<Post>, limit: nat): (r: seq<Post>)
    requires NewestFirst(s)
    ensures |r| == (if |s| < limit then |s| else limit)
    ensures forall k :: 0 <= k < |r| ==> r[k] == s[k]
    ensures NewestFirst(r)
    ensures forall x :: x in r ==> x in s
  {
    var n := if |s| < limit then |s| else limit;
    assert forall x :: x in s[..n] ==> x in s by {
      forall x | x in s[..n] ensures x in s {
        var k :| 0 <= k < n && s[..n][k] == x;
        assert s[k] == x;
      }
    }
    s[..n]
  }

  /** `get_recent_posts`: at most 50 active posts of other students, newest
      first. */
  function RecentPosts(posts: seq<Post>, studentId: int): (r: seq<Post>)
    ensures |r| <= RECENT_POSTS_LIMIT
    ensures forall p :: p in r ==> p in posts && IsRecentFor(p, studentId)
    ensures NewestFirst(r)
  {
    var candidates := RecentCandidates(posts, studentId);
    var sorted := SortNewestFirst(candidates);
    assert forall p :: p in sorted ==> p in posts && IsRecentFor(p, studentId) by {
      forall p | p in sorted ensures p in posts && IsRecentFor(p, studentId) {
        assert multiset(sorted)[p] > 0;
        assert multiset(candidates)[p] > 0;
      }
    }
    Newest(sorted, RECENT_POSTS_LIMIT)
  }

  /** Two posts of `s` with the same id are the same row. */
  predicate IdsIdentifyRows(s: seq<Post>)
  {
    forall x, y :: x in s && y in s && x.id == y.id ==> x == y
  }

  lemma UniqueIdsSingleRows(posts: seq<Post>)
    requires UniquePostIds(posts)
    ensures IdsIdentifyRows(posts)
    ensures forall x :: multiset(posts)[x] <= 1
  {
    assert Distinct(posts);
    DistinctIffSingleCounts(posts);
    forall x, y | x in posts && y in posts && x.id == y.id ensures x == y {
      var a :| 0 <= a < |posts| && posts[a] == x;
      var b :| 0 <= b < |posts| && posts[b] == y;
    }
  }

  /** A newest-first sequence without repeats, whose ids identify its rows,
      is strictly newest-first. */
  lemma StrictlyNewestFirst(s: seq<Post>)
    requires NewestFirst(s) && Distinct(s) && IdsIdentifyRows(s)
    ensures forall i, j :: 0 <= i < j < |s| ==> s[i].id > s[j].id
  {
    forall i, j | 0 <= i < j < |s| ensures s[i].id > s[j].id {
      assert s[i] in s && s[j] in s;
    }
  }

  /** Sorting rows drawn at most once each from a table with unique post
      ids gives a strictly newest-first sequence of the same rows. */
  lemma SortedRows(posts: seq<Post>, rows: seq<Post>)
    requires UniquePostIds(posts)
    requires forall x :: multiset(rows)[x] <= multiset(posts)[x]
    ensures var sorted := SortNewestFirst(rows);
      && (forall i, j :: 0 <= i < j < |sorted| ==> sorted[i].id > sorted[j].id)
      && (forall x :: x in rows ==> x in sorted)
  {
    var sorted := SortNewestFirst(rows);
    UniqueIdsSingleRows(posts);
    assert forall x :: x in sorted ==> x in posts by {
      forall x | x in sorted ensures x in posts {
        assert multiset(sorted)[x] > 0;
      }
    }
    DistinctIffSingleCounts(sorted);
    StrictlyNewestFirst(sorted);
    forall x | x in rows ensures x in sorted {
      assert multiset(sorted)[x] > 0;
    }
  }

  /** The newest posts of a strictly newest-first sequence keep its order,
      and a post of the sequence missing from them is older than each of
      them, which then number `limit`. */
  lemma StrictNewest(s: seq<Post>, limit: nat)
    requires forall i, j :: 0 <= i < j < |s| ==> s[i].id > s[j].id
    ensures var r := Newest(s, limit);
      forall i, j :: 0 <= i < j < |r| ==> r[i].id > r[j].id
    ensures var r := Newest(s, limit);
      forall p :: p in s && p !in r ==> |r| == limit && forall q :: q in r ==> q.id > p.id
  {
    var n := if |s| < limit then |s| else limit;
    var r := Newest(s, limit);
    assert r == s[..n];
    forall p | p in s && p !in r ensures |r| == limit && forall q :: q in r ==> q.id > p.id {
      var k :| 0 <= k < |s| && s[k] == p;
      forall q | q in r ensures q.id > p.id {
        var m :| 0 <= m < n && r[m] == q;
        assert s[m] == q;
      }
    }
  }

  /** With unique post ids the recent posts are in strictly decreasing id
      order. */
  lemma {:induction false} RecentPostsStrictlyNewestFirst(posts: seq<Post>, studentId: int)
    requires UniquePostIds(posts)
    ensures var r := RecentPosts(posts, studentId);
      forall i, j :: 0 <= i < j < |r| ==> r[i].id > r[j].id
  {
    var candidates := RecentCandidates(posts, studentId);
    var sorted := SortNewestFirst(candidates);
    assert RecentPosts(posts, studentId) == Newest(sorted, RECENT_POSTS_LIMIT);
    SortedRows(posts, candidates);
    StrictNewest(sorted, RECENT_POSTS_LIMIT);
  }

  /** With unique post ids the recent posts are exactly the newest posts
      that pass the filter: a post that passes it is left out only when 50
      newer ones fill the reply. */
  lemma {:induction false} RecentPostsAreNewest(posts: seq<Post>, studentId: int)
    requires UniquePostIds(posts)
    ensures var r := RecentPosts(posts, studentId);
      forall p :: p in posts && IsRecentFor(p, studentId) && p !in r ==>
        |r| == RECENT_POSTS_LIMIT && forall q :: q in r ==> q.id > p.id
  {
    var candidates := RecentCandidates(posts, studentId);
    var sorted := SortNewestFirst(candidates);
    assert RecentPosts(posts, studentId) == Newest(sorted, RECENT_POSTS_LIMIT);
    SortedRows(posts, candidates);
    StrictNewest(sorted, RECENT_POSTS_LIMIT);
    forall p | p in posts && IsRecentFor(p, studentId) ensures p in candidates {
      assert multiset(candidates)[p] > 0;
    }
  }
}

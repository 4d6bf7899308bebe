/** The marketplace's entity store and the handlers of backend.py that change
    it. The store is one object whose fields are the tables; each handler is
    a method that validates its input against the tables and then either
    leaves them as they were (an error payload) or changes exactly the rows
    the handler writes. */
module Store {
  import opened Schema
  import opened Lookup
  import opened Queries

  // ----- What the schema's keys and foreign keys guarantee -----

  /** `career.id` is the primary key and `career_name` is unique. */
  predicate CareersValid(careers: seq<Career>)
  {
    forall i, j :: 0 <= i < |careers| && 0 <= j < |careers| && i != j ==>
      careers[i].id != careers[j].id && careers[i].careerName != careers[j].careerName
  }

  /** `category.id` is the primary key. */
  predicate CategoriesValid(categories: seq<Category>)
  {
    forall i, j :: 0 <= i < |categories| && 0 <= j < |categories| && i != j ==>
      categories[i].id != categories[j].id
  }

  predicate CareerExists(careers: seq<Career>, id: int)
  {
    exists c :: c in careers && c.id == id
  }

  predicate CategoryExists(categories: seq<Category>, id: int)
  {
    exists c :: c in categories && c.id == id
  }

  /** The `student` table keyed by its primary key: emails are unique and
      every student's career exists. */
  predicate StudentsValid(students: map<int, Student>, careers: seq<Career>)
  {
    && (forall k :: k in students ==> students[k].id == k && CareerExists(careers, students[k].careerId))
    && (forall a, b :: a in students && b in students && a != b ==> students[a].email != students[b].email)
  }

  /** Post ids are handed out in increasing order, every id below the next
      one to hand out; every post's category and careers exist, and no
      career is attached twice (the composite key of the join table). */
  predicate PostsValid(posts: seq<Post>, categories: seq<Category>, careers: seq<Career>, nextPostId: int)
  {
    && (forall i, j :: 0 <= i < j < |posts| ==> posts[i].id < posts[j].id)
    && (forall p :: p in posts ==> p.id < nextPostId)
    && (forall p :: p in posts ==> CategoryExists(categories, p.categoryId))
    && (forall p :: p in posts ==> Distinct(p.careerIds))
    && (forall p, c :: p in posts && c in p.careerIds ==> CareerExists(careers, c))
  }

  /** Some transaction refers to the post. */
  predicate Purchased(transactions: seq<Transaction>, postId: int)
  {
    exists t :: t in transactions && t.postId == postId
  }

  /** Transaction ids increase; every transaction refers to a post, no post
      has two transactions, and a post is in process exactly when it has
      one. */
  predicate TransactionsValid(transactions: seq<Transaction>, posts: seq<Post>, nextTransactionId: int)
  {
    && (forall i, j :: 0 <= i < j < |transactions| ==> transactions[i].id < transactions[j].id)
    && (forall t :: t in transactions ==> t.id < nextTransactionId)
    && (forall i, j :: 0 <= i < j < |transactions| ==> transactions[i].postId != transactions[j].postId)
    && (forall t :: t in transactions ==> exists p :: p in posts && p.id == t.postId)
    && (forall p :: p in posts ==> (p.status == InProcess <==> Purchased(transactions, p.id)))
  }

  lemma AscendingIdsAreUnique(posts: seq<Post>)
    requires forall i, j :: 0 <= i < j < |posts| ==> posts[i].id < posts[j].id
    ensures UniquePostIds(posts)
  {
  }

  /** The store: one field per table. Careers and categories are loaded once
      (the seed endpoints) and no handler changes them. */
  class Database {
    const careers: seq<Career>
    const categories: seq<Category>
    var students: map<int, Student>
    var posts: seq<Post>
    var transactions: seq<Transaction>
    /** The id the database will give the next post (its auto-increment). */
    var nextPostId: int
    /** The id the database will give the next transaction. */
    var nextTransactionId: int

    ghost predicate Valid()
      reads this
    {
      && CareersValid(careers)
      && CategoriesValid(categories)
      && StudentsValid(students, careers)
      && PostsValid(posts, categories, careers, nextPostId)
      && TransactionsValid(transactions, posts, nextTransactionId)
    }

    /** A store holding the seeded careers and categories and nothing else. */
    constructor (careers: seq<Career>, categories: seq<Category>)
      requires CareersValid(careers) && CategoriesValid(categories)
      ensures Valid()
      ensures this.careers == careers && this.categories == categories
      ensures students == map[] && posts == [] && transactions == []
    {
      this.careers := careers;
      this.categories := categories;
      students := map[];
      posts := [];
      transactions := [];
      nextPostId := 1;
      nextTransactionId := 1;
    }

    /** `register`: look up the career by name, then insert the student;
        the insert fails when the id or the email is already used. */
    method Register(id: int, email: string, name: string, level: int, phoneNumber: string,
                    careerName: string, profileImageUrl: Option<string>) returns (r: Outcome)
      requires Valid()
      modifies this`students
      ensures Valid()
      ensures FindCareer(careers, careerName).None? ==> r == Fail(CareerNotFound)
      ensures FindCareer(careers, careerName).Some? && (id in old(students) || EmailTaken(old(students), email))
        ==> r == Fail(AlreadyRegistered)
      ensures r.Done? <==> FindCareer(careers, careerName).Some? && id !in old(students) && !EmailTaken(old(students), email)
      ensures r.Fail? ==> students == old(students)
      ensures r.Done? ==>
        var student := Student(id, email, name, level, phoneNumber, profileImageUrl,
                               DEFAULT_RATING, DEFAULT_RATING, FindCareer(careers, careerName).value.id);
        && students == old(students)[id := student]
        && |students| == |old(students)| + 1
        && GetStudent(students, id) == Ok(student)
    {
      var career := FindCareer(careers, careerName);
      if career.None? {
        return Fail(CareerNotFound);
      }
      if id in students || EmailTaken(students, email) {
        return Fail(AlreadyRegistered);
      }
      var student := Student(id, email, name, level, phoneNumber, profileImageUrl,
                             DEFAULT_RATING, DEFAULT_RATING, career.value.id);
      students := students[id := student];
      r := Done;
    }

    /** `delte_student`: remove the student's row. Rows that refer to the
        student are left as they are. */
    method DeleteStudent(id: int) returns (r: Outcome)
      requires Valid()
      modifies this`students
      ensures Valid()
      ensures r.Done? <==> id in old(students)
      ensures r.Fail? ==> r.failure == StudentNotFound && students == old(students)
      ensures r.Done? ==> students == old(students) - {id} && |students| == |old(students)| - 1
      ensures GetStudent(students, id).Error?
    {
      if GetStudent(students, id).Error? {
        return Fail(StudentNotFound);
      }
      students := students - {id};
      r := Done;
    }

    /** `publish`: look up the category by name, the student by id and each
        career by name (stopping at the first missing one), then insert an
        active post tagged with those careers. */
    method Publish(categoryName: string, studentId: int, careerNames: seq<string>,
                   name: string, price: Float, description: string, imageUrl: string, level: int)
      returns (r: Outcome)
      requires Valid()
      modifies this`posts, this`nextPostId
      ensures Valid()
      ensures FindCategory(categories, categoryName).None? ==> r == Fail(CategoryNotFound)
      ensures FindCategory(categories, categoryName).Some? && studentId !in students ==> r == Fail(StudentNotFound)
      ensures (&& FindCategory(categories, categoryName).Some? && studentId in students
               && LookupCareers(careers, careerNames).None?) ==> r == Fail(CareerNotFound)
      ensures (&& FindCategory(categories, categoryName).Some? && studentId in students
               && LookupCareers(careers, careerNames).Some? && !Distinct(careerNames)) ==> r == Fail(IntegrityViolation)
      ensures r.Done? <==> (&& FindCategory(categories, categoryName).Some? && studentId in students
                            && LookupCareers(careers, careerNames).Some? && Distinct(careerNames))
      ensures r.Fail? ==> posts == old(posts) && nextPostId == old(nextPostId)
      ensures r.Done? ==>
        && posts == old(posts) + [Post(old(nextPostId), name, price, description, imageUrl, Active, level,
                                       FindCategory(categories, categoryName).value.id, studentId,
                                       IdsOf(LookupCareers(careers, careerNames).value))]
        && nextPostId == old(nextPostId) + 1
    {
      var category := FindCategory(categories, categoryName);
      if category.None? {
        return Fail(CategoryNotFound);
      }
      if GetStudent(students, studentId).Error? {
        return Fail(StudentNotFound);
      }
      var lookup := ResolveCareers(careerNames);
      if lookup.None? {
        return Fail(CareerNotFound);
      }
      var found := lookup.value;
      var careerIds := IdsOf(found);
      RepeatedCareerBreaksJoinKey(careers, careerNames);
      if !Distinct(careerIds) {
        return Fail(IntegrityViolation);
      }
      var post := Post(nextPostId, name, price, description, imageUrl, Active, level,
                       category.value.id, studentId, careerIds);
      FoundCareersExist(careers, found);
      AddPost(post);
      r := Done;
    }

    /** The insert of `publish`: the new post takes the next id and goes at
        the end of the table. */
    method AddPost(post: Post)
      requires Valid()
      requires post.id == nextPostId && post.status == Active
      requires CategoryExists(categories, post.categoryId)
      requires Distinct(post.careerIds) && forall c :: c in post.careerIds ==> CareerExists(careers, c)
      modifies this`posts, this`nextPostId
      ensures Valid()
      ensures posts == old(posts) + [post] && nextPostId == old(nextPostId) + 1
    {
      NewPostKeepsStoreValid(posts, transactions, categories, careers, nextPostId, nextTransactionId, post);
      posts := posts + [post];
      nextPostId := nextPostId + 1;
    }

    /** The loop of `publish` over the requested career names: the career
        of each name in order, or none at the first name no career has. */
    method ResolveCareers(careerNames: seq<string>) returns (r: Option<seq<Career>>)
      ensures r == LookupCareers(careers, careerNames)
    {
      var found: seq<Career> := [];
      var i := 0;
      while i < |careerNames|
        invariant 0 <= i <= |careerNames|
        invariant LookupCareers(careers, careerNames[..i]) == Some(found)
      {
        var career := FindCareer(careers, careerNames[i]);
        if career.None? {
          assert careerNames[..i + 1][..i] == careerNames[..i];
          return None;
        }
        assert careerNames[..i + 1][..i] == careerNames[..i];
        found := found + [career.value];
        i := i + 1;
      }
      assert careerNames[..i] == careerNames;
      return Some(found);
    }

    /** `create_transaction`: look up the purchaser, then the post among the
        active ones; mark the post in process and record a pending
        transaction. Nothing stops a student from buying their own post. */
    method CreateTransaction(studentId: int, postId: int) returns (r: Outcome)
      requires Valid()
      modifies this`posts, this`transactions, this`nextTransactionId
      ensures Valid()
      ensures studentId !in students ==> r == Fail(StudentNotFound)
      ensures studentId in students && ActivePostIndex(old(posts), postId).None? ==> r == Fail(PostUnavailable)
      ensures r.Done? <==> studentId in students && ActivePostIndex(old(posts), postId).Some?
      ensures r.Fail? ==> posts == old(posts) && transactions == old(transactions)
                          && nextTransactionId == old(nextTransactionId)
      ensures r.Done? ==>
        var i := ActivePostIndex(old(posts), postId).value;
        && posts == old(posts)[i := old(posts)[i].(status := InProcess)]
        && transactions == old(transactions)
                           + [Transaction(old(nextTransactionId), Pending, Pending, Pending, postId, studentId)]
        && nextTransactionId == old(nextTransactionId) + 1
      ensures r.Done? ==> ActivePostIndex(posts, postId).None? && GetSinglePost(posts, postId) == Error(PostUnavailable)
    {
      if GetStudent(students, studentId).Error? {
        return Fail(StudentNotFound);
      }
      var found := ActivePostIndex(posts, postId);
      if found.None? {
        return Fail(PostUnavailable);
      }
      var i := found.value;
      MarkPurchased(i, studentId);
      r := Done;
    }

    /** The writes of `create_transaction`: the i-th post goes in process
        and a pending transaction of `studentId` for it takes the next id. */
    method MarkPurchased(i: nat, studentId: int)
      requires Valid()
      requires i < |posts| && posts[i].status == Active
      modifies this`posts, this`transactions, this`nextTransactionId
      ensures Valid()
      ensures posts == old(posts)[i := old(posts)[i].(status := InProcess)]
      ensures transactions == old(transactions)
                              + [Transaction(old(nextTransactionId), Pending, Pending, Pending, old(posts)[i].id, studentId)]
      ensures nextTransactionId == old(nextTransactionId) + 1
      ensures ActivePostIndex(posts, old(posts)[i].id).None?
    {
      var t := Transaction(nextTransactionId, Pending, Pending, Pending, posts[i].id, studentId);
      var posts' := posts[i := posts[i].(status := InProcess)];
      var transactions' := transactions + [t];
      PurchaseKeepsStoreValid(posts, transactions, categories, careers, nextPostId, nextTransactionId, i, t);
      PurchasedPostIsNotActive(posts, i);
      posts := posts';
      transactions := transactions';
      nextTransactionId := nextTransactionId + 1;
    }
  }

  // ----- Lemmas the handlers rest on -----

  /** With unique career names and ids, the careers `publish` looks up
      repeat an id exactly when the request repeats a name, so the join
      table's composite key rejects exactly the requests that name a career
      twice. */
  lemma RepeatedCareerBreaksJoinKey(careers: seq<Career>, names: seq<string>)
    requires CareersValid(careers)
    requires LookupCareers(careers, names).Some?
    ensures Distinct(IdsOf(LookupCareers(careers, names).value)) <==> Distinct(names)
  {
    var cs := LookupCareers(careers, names).value;
    var ids := IdsOf(cs);
    forall i, j | 0 <= i < j < |names| ensures ids[i] == ids[j] <==> names[i] == names[j] {
      var a :| 0 <= a < |careers| && careers[a] == cs[i];
      var b :| 0 <= b < |careers| && careers[b] == cs[j];
      if ids[i] == ids[j] || names[i] == names[j] {
        assert a == b;
      }
    }
  }

  /** Appending a fresh active post with an existing category and distinct,
      existing careers keeps the tables consistent. */
  lemma NewPostKeepsStoreValid(posts: seq<Post>, transactions: seq<Transaction>, categories: seq<Category>,
                               careers: seq<Career>, nextPostId: int, nextTransactionId: int, post: Post)
    requires PostsValid(posts, categories, careers, nextPostId)
    requires TransactionsValid(transactions, posts, nextTransactionId)
    requires post.id == nextPostId && post.status == Active
    requires CategoryExists(categories, post.categoryId)
    requires Distinct(post.careerIds) && forall c :: c in post.careerIds ==> CareerExists(careers, c)
    ensures PostsValid(posts + [post], categories, careers, nextPostId + 1)
    ensures TransactionsValid(transactions, posts + [post], nextTransactionId)
  {
    var posts' := posts + [post];
    forall p | p in posts' ensures p.status == InProcess <==> Purchased(transactions, p.id) {
      if p == post {
        forall t | t in transactions ensures t.postId != post.id {
          var q :| q in posts && q.id == t.postId;
        }
      }
    }
  }

  /** The careers `publish` found exist, and so do their ids. */
  lemma FoundCareersExist(careers: seq<Career>, found: seq<Career>)
    requires forall c :: c in found ==> c in careers
    ensures forall c :: c in IdsOf(found) ==> CareerExists(careers, c)
  {
    forall c | c in IdsOf(found) ensures CareerExists(careers, c) {
      var k :| 0 <= k < |found| && IdsOf(found)[k] == c;
      assert found[k] in careers;
    }
  }

  /** Marking the i-th post in process and recording its transaction keeps
      the tables consistent. */
  lemma PurchaseKeepsStoreValid(posts: seq<Post>, transactions: seq<Transaction>, categories: seq<Category>,
                                careers: seq<Career>, nextPostId: int, nextTransactionId: int,
                                i: nat, t: Transaction)
    requires PostsValid(posts, categories, careers, nextPostId)
    requires TransactionsValid(transactions, posts, nextTransactionId)
    requires i < |posts| && posts[i].status == Active
    requires t.id == nextTransactionId && t.postId == posts[i].id
    ensures PostsValid(posts[i := posts[i].(status := InProcess)], categories, careers, nextPostId)
    ensures TransactionsValid(transactions + [t], posts[i := posts[i].(status := InProcess)], nextTransactionId + 1)
  {
    MarkingKeepsPostsValid(posts, categories, careers, nextPostId, i);
    PurchaseKeepsReferences(transactions, posts, i, t);
    PurchaseKeepsStatus(transactions, posts, i, t);
    assert !Purchased(transactions, t.postId);
  }

  lemma MarkingKeepsPostsValid(posts: seq<Post>, categories: seq<Category>, careers: seq<Career>,
                               nextPostId: int, i: nat)
    requires PostsValid(posts, categories, careers, nextPostId)
    requires i < |posts|
    ensures PostsValid(posts[i := posts[i].(status := InProcess)], categories, careers, nextPostId)
  {
    var posts' := posts[i := posts[i].(status := InProcess)];
    forall p | p in posts' ensures p.careerIds == posts[i].careerIds || p in posts {
      var k :| 0 <= k < |posts'| && posts'[k] == p;
      if k != i { assert p == posts[k]; }
    }
    assert posts[i] in posts;
  }

  lemma PurchaseKeepsReferences(transactions: seq<Transaction>, posts: seq<Post>, i: nat, t: Transaction)
    requires forall u :: u in transactions ==> exists p :: p in posts && p.id == u.postId
    requires i < |posts| && t.postId == posts[i].id
    ensures var posts' := posts[i := posts[i].(status := InProcess)];
      forall u :: u in transactions + [t] ==> exists p :: p in posts' && p.id == u.postId
  {
    var posts' := posts[i := posts[i].(status := InProcess)];
    forall u | u in transactions + [t] ensures exists p :: p in posts' && p.id == u.postId {
      if u == t {
        assert posts'[i].id == u.postId;
      } else {
        var p :| p in posts && p.id == u.postId;
        var k :| 0 <= k < |posts| && posts[k] == p;
        assert posts'[k].id == u.postId;
      }
    }
  }

  lemma PurchaseKeepsStatus(transactions: seq<Transaction>, posts: seq<Post>, i: nat, t: Transaction)
    requires forall a, b :: 0 <= a < b < |posts| ==> posts[a].id < posts[b].id
    requires forall p :: p in posts ==> (p.status == InProcess <==> Purchased(transactions, p.id))
    requires i < |posts| && posts[i].status == Active && t.postId == posts[i].id
    ensures var posts' := posts[i := posts[i].(status := InProcess)];
      forall p :: p in posts' ==> (p.status == InProcess <==> Purchased(transactions + [t], p.id))
  {
    var posts' := posts[i := posts[i].(status := InProcess)];
    var transactions' := transactions + [t];
    forall p | p in posts' ensures p.status == InProcess <==> Purchased(transactions', p.id) {
      var k :| 0 <= k < |posts'| && posts'[k] == p;
      if k != i {
        assert p == posts[k];
        if k < i { assert posts[k].id < posts[i].id; } else { assert posts[i].id < posts[k].id; }
        assert Purchased(transactions', p.id) ==> Purchased(transactions, p.id);
      } else {
        assert t in transactions';
      }
    }
  }

  /** Once the i-th post is marked in process, no post with its id is
      active any more, so a second purchase of it fails. */
  lemma PurchasedPostIsNotActive(posts: seq<Post>, i: nat)
    requires forall a, b :: 0 <= a < b < |posts| ==> posts[a].id < posts[b].id
    requires i < |posts|
    ensures ActivePostIndex(posts[i := posts[i].(status := InProcess)], posts[i].id).None?
  {
    var posts' := posts[i := posts[i].(status := InProcess)];
    forall p | p in posts' ensures !(p.id == posts[i].id && p.status == Active) {
      var k :| 0 <= k < |posts'| && posts'[k] == p;
      if k < i { assert posts[k].id < posts[i].id; }
      if k > i { assert posts[i].id < posts[k].id; }
    }
  }

  /** A post that has just been marked in process is no longer reachable
      through any read handler: `get_sinlge_post` reports it unavailable,
      and its owner's active posts and everyone's recent posts leave it
      out. */
  lemma PurchasedPostIsUnavailable(posts: seq<Post>, i: nat)
    requires forall a, b :: 0 <= a < b < |posts| ==> posts[a].id < posts[b].id
    requires i < |posts|
    ensures var posts' := posts[i := posts[i].(status := InProcess)];
      && GetSinglePost(posts', posts[i].id) == Error(PostUnavailable)
      && posts'[i] !in GetActivePosts(posts', posts[i].studentId)
      && forall studentId :: posts'[i] !in RecentPosts(posts', studentId)
  {
    var posts' := posts[i := posts[i].(status := InProcess)];
    PurchasedPostIsNotActive(posts, i);
    assert multiset(GetActivePosts(posts', posts[i].studentId))[posts'[i]] == 0;
  }

  /** A post `publish` has just appended is what `get_sinlge_post` returns
      for its id and is among its owner's active posts. */
  lemma PublishedPostIsListed(posts: seq<Post>, post: Post)
    requires forall p :: p in posts ==> p.id < post.id
    requires post.status == Active
    ensures GetSinglePost(posts + [post], post.id) == Ok(post)
    ensures post in GetActivePosts(posts + [post], post.studentId)
  {
    var posts' := posts + [post];
    assert multiset(posts')[post] > 0;
    assert forall p :: p in posts' && p.id == post.id ==> p == post;
  }

  lemma AppendNewestKeepsAscending(posts: seq<Post>, post: Post)
    requires forall a, b :: 0 <= a < b < |posts| ==> posts[a].id < posts[b].id
    requires forall p :: p in posts ==> p.id < post.id
    ensures forall a, b :: 0 <= a < b < |posts + [post]| ==> (posts + [post])[a].id < (posts + [post])[b].id
  {
    var posts' := posts + [post];
    forall a, b | 0 <= a < b < |posts'| ensures posts'[a].id < posts'[b].id {
      if b == |posts| { assert posts'[a] in posts; }
    }
  }

  lemma AppendedIsNewest(posts: seq<Post>, post: Post)
    requires forall p :: p in posts ==> p.id < post.id
    ensures post in posts + [post]
    ensures forall q :: q in posts + [post] && q != post ==> q.id < post.id
  {
    forall q | q in posts + [post] && q != post ensures q.id < post.id {
      assert q in posts;
    }
  }

  /** A newest-first selection from `all` that leaves out `post` only when
      it is full of posts newer than `post` starts with `post`, when `post`
      is the newest of `all`. */
  lemma NewestSelectionStartsWith(all: seq<Post>, r: seq<Post>, post: Post, limit: nat)
    requires limit > 0 && post in all
    requires forall q :: q in all && q != post ==> q.id < post.id
    requires forall q :: q in r ==> q in all
    requires NewestFirst(r)
    requires post !in r ==> |r| == limit && forall q :: q in r ==> q.id > post.id
    ensures |r| > 0 && r[0] == post
  {
    assert |r| > 0 ==> r[0] in r;
    var k :| 0 <= k < |r| && r[k] == post;
  }

  /** A post `publish` has just appended has the highest id, so it heads the
      recent posts of every student but its owner. */
  lemma PublishedPostHeadsRecentPosts(posts: seq<Post>, post: Post, studentId: int)
    requires forall a, b :: 0 <= a < b < |posts| ==> posts[a].id < posts[b].id
    requires forall p :: p in posts ==> p.id < post.id
    requires post.status == Active && post.studentId != studentId
    ensures var r := RecentPosts(posts + [post], studentId);
      |r| > 0 && r[0] == post
  {
    var posts' := posts + [post];
    AppendNewestKeepsAscending(posts, post);
    AscendingIdsAreUnique(posts');
    AppendedIsNewest(posts, post);
    RecentPostsAreNewest(posts', studentId);
    var r := RecentPosts(posts', studentId);
    assert post !in r ==> |r| == RECENT_POSTS_LIMIT && forall q :: q in r ==> q.id > post.id;
    NewestSelectionStartsWith(posts', r, post, RECENT_POSTS_LIMIT);
  }
}

# USellBackend marketplace store, modelled in Dafny

USellBackend is a Flask service for a student marketplace (backend.py). Students
register under a career. They publish posts for sale in a category, tagged with one
or more careers. Other students buy a post, which records a pending transaction and
takes the post off the market.

This project models the store and the handlers that read and change it:

- `schema.dfy` (module `Schema`) holds the rows of the tables: career, category,
  student, post together with its rows of the `careers` join table, and transaction.
  It also holds the error payloads and the two reply shapes (`Reply` for read
  handlers, `Outcome` for write handlers).
- `lookup.dfy` (module `Lookup`) holds the two reads the handlers make of a table
  kept as a sequence in insertion order: the first row matching a filter
  (`.first()`) and all matching rows (`.all()`). The source's queries have no
  `order_by`, so the database does not fix which matching row comes first; the
  model takes table order.
- `queries.dfy` (module `Queries`) holds the read handlers as functions of the
  tables: `get_student`, `get_active_posts`, `get_sinlge_post`,
  `get_all_posts_by_category` and `get_recent_posts`. It also holds the lookups the
  write handlers make, and the lemmas that say what the recent-posts query returns.
- `store.dfy` (module `Store`) holds class `Database`, with one field per table and
  an invariant `Valid()`. The invariant covers the primary keys, the unique columns,
  the foreign keys, the composite key of the join table, and the link between a
  post's status and its transaction. The class has one method per write handler:
  `register`, `publish`, `create_transaction` and `delte_student`. Lemmas next to it
  say what a write does to later reads.

Post and transaction ids come from the database's auto-increment, modelled as the
counters `nextPostId` and `nextTransactionId`. Student ids are supplied by the
client. The `career` and `category` tables are fixed when the store is built and
no modelled handler changes them.

## Model

| member | source | states |
|---|---|---|
| Lookup.FirstIndex | backend.py:162 | the position `.first()` finds is the first row meeting the filter; none means no row meets it |
| Lookup.First | backend.py:231 | the row found meets the filter and is in the table; none exactly when no row meets it |
| Lookup.Filter | backend.py:170 | `.all()` returns each row meeting the filter as often as the table holds it, and no other row |
| Lookup.DistinctIffSingleCounts | backend.py:44-47 | a sequence has no repeats exactly when its multiset counts each element at most once |
| Queries.GetStudent | backend.py:160-166 | in a table keyed by id, a student is returned exactly when some student has the id, and the row returned is in the table and carries that id; otherwise the not-found error |
| Queries.FindCareer | backend.py:248 | the career found has the requested name; none exactly when no career has it |
| Queries.FindCategory | backend.py:277 | the category found has the requested name and, in the model's table order, is the first one that does; none exactly when no category has it |
| Queries.LookupCareers | backend.py:286-293 | fails exactly when some requested name has no career; otherwise gives, in request order, one career per name bearing that name |
| Queries.ActivePostIndex | backend.py:214 | the position found holds an active post with the id; none exactly when no such post exists |
| Queries.GetSinglePost | backend.py:212-218 | returns a post only if it has the id and is active; the unavailable error exactly when no active post has the id |
| Queries.GetActivePosts | backend.py:168-171 | exactly the student's active posts, each as often as the table holds it |
| Queries.GetPostsByCategory | backend.py:229-235 | the not-found error exactly when no category has the id; otherwise every post of that category, whatever its status |
| Queries.InsertNewestFirst | backend.py:239 | inserting into a newest-first sequence keeps it newest-first and adds exactly that post |
| Queries.SortNewestFirst | backend.py:239 | `order_by(desc(Post.id))` gives a newest-first permutation of its input |
| Queries.RecentCandidates | backend.py:239 | the posts the recent query chooses from are exactly the active posts of other students |
| Queries.Newest | backend.py:239 | `.limit(n)` returns the first min(n, length) posts of its input, in the same newest-first order |
| Queries.RecentPosts | backend.py:237-243 | at most 50 posts, each active and owned by another student, newest first |
| Queries.UniqueIdsSingleRows | backend.py:50 | with unique post ids, a post id names a single row and no row occurs twice |
| Queries.SortedRows | backend.py:239 | sorting rows taken at most once each from a table with unique ids gives strictly decreasing ids and keeps every row |
| Queries.StrictNewest | backend.py:239 | the first n posts of a strictly newest-first sequence are strictly newest-first, and a post left out means all n kept posts are newer |
| Queries.RecentPostsStrictlyNewestFirst | backend.py:239 | with unique post ids, the recent posts have strictly decreasing ids |
| Queries.RecentPostsAreNewest | backend.py:239 | with unique post ids, an active post of another student is left out only when 50 newer ones fill the reply |
| Store.Database.constructor | backend.py:21-86 | an empty store over seeded careers and categories satisfies the schema's keys |
| Store.Database.Register | backend.py:245-272 | an unknown career, or a used id or email, gives an error and leaves the students unchanged; otherwise exactly one student is added, with the given fields, zero ratings and the career found |
| Store.Database.DeleteStudent | backend.py:173-181 | an unknown id gives the not-found error and changes nothing; otherwise exactly that student's row is removed; either way the student is gone |
| Store.Database.Publish | backend.py:274-310 | a missing category, student or career, or a career named twice, gives its error and adds no post; it succeeds exactly when category, student and every career exist and no career is named twice, and then exactly one active post is appended, with the next id, the category and student found, and the careers found in request order |
| Store.Database.ResolveCareers | backend.py:286-293 | the loop over the career names returns the careers `LookupCareers` specifies |
| Store.Database.AddPost | backend.py:302-305 | inserting a post with a fresh id, an existing category and distinct existing careers appends it and keeps the store valid |
| Store.Database.CreateTransaction | backend.py:312-326 | an unknown student or a post that is not active gives its error and changes nothing; otherwise that post alone becomes in process, one pending transaction with the next id is appended, and the post is no longer available |
| Store.Database.MarkPurchased | backend.py:322-325 | the post goes in process, one pending transaction for it is appended, the store stays valid and no active post has its id any more |
| Store.RepeatedCareerBreaksJoinKey | backend.py:44-47 | the careers found repeat an id exactly when the request repeats a name, so the join table's key rejects exactly those requests |
| Store.NewPostKeepsStoreValid | backend.py:302-305 | appending a fresh active post with an existing category and distinct existing careers keeps the posts and transactions consistent |
| Store.FoundCareersExist | backend.py:65 | the ids of the careers found refer to existing careers |
| Store.PurchaseKeepsStoreValid | backend.py:322-325 | marking an active post in process and recording its transaction keeps posts and transactions consistent |
| Store.MarkingKeepsPostsValid | backend.py:322 | changing a post's status keeps its keys and references |
| Store.PurchaseKeepsReferences | backend.py:83 | every transaction, old or new, still refers to an existing post |
| Store.PurchaseKeepsStatus | backend.py:322-323 | after the purchase, a post is in process exactly when it has a transaction |
| Store.PurchasedPostIsNotActive | backend.py:319-322 | once a post is marked in process no post with its id is active, so a second purchase fails |
| Store.PurchasedPostIsUnavailable | backend.py:168-171 | a purchased post is unavailable to `get_sinlge_post`, absent from its owner's active posts and absent from everyone's recent posts |
| Store.PublishedPostIsListed | backend.py:212-218 | a newly published post is what `get_sinlge_post` returns for its id and is among its owner's active posts |
| Store.AppendNewestKeepsAscending | backend.py:50 | appending a post with a higher id keeps post ids ascending |
| Store.AppendedIsNewest | backend.py:50 | an appended post with a higher id is the newest of the table |
| Store.NewestSelectionStartsWith | backend.py:239 | a newest-first selection that drops the newest post only when full of newer posts starts with that post |
| Store.PublishedPostHeadsRecentPosts | backend.py:237-243 | a newly published post heads the recent posts of every student but its owner |

## Left out

- Flask routing, the parsing of `request.json` and `jsonify` are not modelled. Handler inputs are method parameters and outputs are `Reply`/`Outcome` values. The Spanish message texts are reduced to one `Failure` value per distinct error.
- A required field missing from the request body raises a `KeyError`, which is not modelled because every field is a parameter. For the fields read inside the `try` blocks (backend.py:254-263, 296-300) that gives the generic error reply (backend.py:271-272, 309-310). The fields read outside them (`career_name` at backend.py:247; `category_name`, `student_id` and `career_names` at backend.py:276, 281, 286; both fields of `create_transaction` at backend.py:314, 318) raise an uncaught error and the request fails with a server error.
- Register: backend.py:264 looks up the career by name a second time. The table does not change between the two lookups, so the model uses the first result.
- Marshmallow schemas and their `post_dump` field removal (backend.py:90-154) are not modelled. Replies carry the rows themselves.
- Floating-point columns (`price`, the two ratings) are `real` values carried through unchanged. Their rounding is not modelled.
- Timestamps (`publish_date`, the wish-list `added_date` and the transaction `date`, backend.py:57, 71, 79) are not modelled. Their default `datetime.now()` is evaluated once, when the module loads, so every row gets the server's start-up time rather than its insertion time.
- Column widths (`String(50)` and the like) are not enforced. What happens to an overlong value depends on the database engine.
- Integer columns (the client-supplied `Student.id`, `level`, the ids of posts and transactions) are unbounded `int`s. The database rejects a value outside its integer range, which `register` turns into the generic error reply (backend.py:271-272); the model accepts any integer.
- Row order: none of the queries (backend.py:162, 170, 214, 231, 234, 248, 277) has an `order_by`, so the database does not define which matching row `.first()` returns or in which order `.all()` lists rows. The model resolves this as table (insertion) order. This matters only for `FindCategory`, since category names are not unique (backend.py:39): which of several same-named categories `publish` uses is the model's choice, not the source's.
- DeleteStudent: what the ORM does to posts and transactions that refer to the deleted student (nulling the foreign key or failing the commit) is not modelled. The method removes only the student row, so `Valid()` does not claim that a post's owner or a transaction's purchaser exists.
- Publish: on a failed insert the model leaves `nextPostId` unchanged. A real database may consume a sequence value on a failed insert; only the freshness and increase of ids are modelled.
- The `== None` checks after `.all()` and after the recent-posts query (backend.py:186, 199, 224, 240) can never succeed, so the list queries return possibly empty sequences and have no error case.
- The handlers `index`, `get_all_careers`, `get_all_categories`, `get_all_students` and `get_all_posts`, and the seed endpoints `create_careers` and `create_categories`, are not modelled. The seeded careers and categories are the constructor's arguments.
- The `WishPost` table (no handler uses it) is not modelled. Neither are the transaction statuses other than `'pending'`, which no handler writes.
- Sessions, commits, rollback and concurrent requests are not modelled. Each handler runs as one atomic step.
- The database configuration (backend.py:1-17) is not modelled.

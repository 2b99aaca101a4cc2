/** The two tables of the blog database, the constraints the schema puts on
    them, and the row-level edits the handlers make. */
module Models {

  /** A row of the User table. `password` holds what the password hasher
      returned, not the password the user typed. */
  datatype User = User(id: nat, username: string, email: string, password: string)

  /** A row of the Post table. `userId` is the foreign key to `User.id`;
      `dateCreated` is the server clock reading taken at insertion. */
  datatype Post = Post(id: nat, title: string, content: string, dateCreated: int, userId: nat)

  function UserKey(u: User): nat { u.id }

  function PostKey(p: Post): nat { p.id }

  /** The primary key the store gives a new row: one more than the largest key
      in the table, or 1 when the table is empty (the rowid rule of an SQLite
      INTEGER PRIMARY KEY). */
  function NextId<T>(rows: seq<T>, key: T -> nat): (r: nat)
    ensures 0 < r
    ensures forall i :: 0 <= i < |rows| ==> key(rows[i]) < r
    ensures r == 1 || exists i :: 0 <= i < |rows| && key(rows[i]) == r - 1
  {
    if rows == [] then 1
    else
      var rest := NextId(rows[1..], key);
      if key(rows[0]) < rest then rest else key(rows[0]) + 1
  }

  /** The primary key, `username` and `email` are each unique across the
      User table. */
  ghost predicate UsersUnique(users: seq<User>)
  {
    forall i, j :: 0 <= i < j < |users| ==>
      users[i].id != users[j].id && users[i].username != users[j].username && users[i].email != users[j].email
  }

  /** The primary key is unique across the Post table. */
  ghost predicate PostIdsUnique(posts: seq<Post>)
  {
    forall i, j :: 0 <= i < j < |posts| ==> posts[i].id != posts[j].id
  }

  ghost predicate UserExists(users: seq<User>, id: nat)
  {
    exists u :: u in users && u.id == id
  }

  /** Referential integrity: every post's `userId` names a row of the User table. */
  ghost predicate PostsOwned(users: seq<User>, posts: seq<Post>)
  {
    forall p :: p in posts ==> UserExists(users, p.userId)
  }

  /** Some user already has this username or this email. */
  ghost predicate Taken(users: seq<User>, username: string, email: string)
  {
    exists u :: u in users && (u.username == username || u.email == email)
  }

  ghost predicate HasPost(posts: seq<Post>, id: nat)
  {
    exists p :: p in posts && p.id == id
  }

  /** The post keyed `id` belongs to user `uid`. */
  ghost predicate Owns(posts: seq<Post>, id: nat, uid: nat)
  {
    exists p :: p in posts && p.id == id && p.userId == uid
  }

  /** In a table with unique keys, the row at position k is the only row with
      its key. */
  lemma KeyedRowIsUnique(posts: seq<Post>, k: nat)
    requires PostIdsUnique(posts) && k < |posts|
    ensures forall p :: p in posts && p.id == posts[k].id ==> p == posts[k]
  {
  }

  /** Appending a post keyed by NextId, whose owner exists, keeps post keys
      unique and every post owned, and its key differs from every stored key. */
  lemma InsertKeepsConstraints(users: seq<User>, posts: seq<Post>, p: Post)
    requires PostIdsUnique(posts) && PostsOwned(users, posts)
    requires p.id == NextId(posts, PostKey) && UserExists(users, p.userId)
    ensures PostIdsUnique(posts + [p]) && PostsOwned(users, posts + [p])
    ensures forall q :: q in posts ==> q.id != p.id
  {
  }

  /** The Post table after deleting the row keyed `id`; every other row stays,
      in the same order. */
  function WithoutId(posts: seq<Post>, id: nat): (r: seq<Post>)
    ensures forall p :: p in r <==> p in posts && p.id != id
    ensures |r| <= |posts|
  {
    if posts == [] then []
    else if posts[0].id == id then WithoutId(posts[1..], id)
    else [posts[0]] + WithoutId(posts[1..], id)
  }

  /** Deleting by key keeps each other row exactly as often as the table
      held it, and drops every copy of a row with that key. */
  lemma {:induction false} WithoutIdCounts(posts: seq<Post>, id: nat)
    ensures forall p :: multiset(WithoutId(posts, id))[p] == if p.id != id then multiset(posts)[p] else 0
  {
    if posts != [] {
      WithoutIdCounts(posts[1..], id);
      assert posts == [posts[0]] + posts[1..];
    }
  }

  /** The Post table after the row keyed `id` gets a new title and content:
      keys, owners and creation dates stay as they were, and every other row
      is left alone. */
  function Rewritten(posts: seq<Post>, id: nat, title: string, content: string): (r: seq<Post>)
    ensures |r| == |posts|
    ensures forall i :: 0 <= i < |posts| ==>
      r[i].id == posts[i].id && r[i].userId == posts[i].userId && r[i].dateCreated == posts[i].dateCreated
    ensures forall i :: 0 <= i < |posts| && posts[i].id != id ==> r[i] == posts[i]
    ensures forall i :: 0 <= i < |posts| && posts[i].id == id ==> r[i].title == title && r[i].content == content
  {
    seq(|posts|, i requires 0 <= i < |posts| =>
      if posts[i].id == id then posts[i].(title := title, content := content) else posts[i])
  }

  /** Deleting the row at position k of a table with unique keys is deleting
      the row keyed `posts[k].id`. */
  lemma {:induction false} RemoveAtIsWithoutId(posts: seq<Post>, k: nat)
    requires PostIdsUnique(posts)
    requires k < |posts|
    ensures posts[..k] + posts[k + 1..] == WithoutId(posts, posts[k].id)
  {
    var id, tail := posts[k].id, posts[1..];
    TailUnique(posts);
    if k == 0 {
      assert posts[..0] + posts[1..] == tail;
      WithoutAbsent(tail, id);
    } else {
      RemoveAtIsWithoutId(tail, k - 1);
      assert tail[k - 1] == posts[k];
      assert posts[..k] + posts[k + 1..] == [posts[0]] + (tail[..k - 1] + tail[k..]);
    }
  }

  /** Below the head of a table with unique keys, keys stay unique and differ
      from the head's. */
  lemma TailUnique(posts: seq<Post>)
    requires PostIdsUnique(posts)
    requires posts != []
    ensures PostIdsUnique(posts[1..])
    ensures forall i :: 0 <= i < |posts[1..]| ==> posts[1..][i].id != posts[0].id
  {
  }

  /** Deleting one row keeps the keys unique. */
  lemma RemoveAtKeepsUnique(posts: seq<Post>, k: nat)
    requires PostIdsUnique(posts) && k < |posts|
    ensures PostIdsUnique(posts[..k] + posts[k + 1..])
  {
  }

  /** Deleting a key that no row has leaves the table as it was. */
  lemma {:induction false} WithoutAbsent(posts: seq<Post>, id: nat)
    requires forall i :: 0 <= i < |posts| ==> posts[i].id != id
    ensures WithoutId(posts, id) == posts
  {
    if posts != [] {
      WithoutAbsent(posts[1..], id);
      assert [posts[0]] + posts[1..] == posts;
    }
  }

  /** Inserting a row with a fresh key and then deleting that key gives back
      the table as it was. */
  lemma {:induction false} DeleteUndoesInsert(posts: seq<Post>, p: Post)
    requires forall i :: 0 <= i < |posts| ==> posts[i].id != p.id
    ensures WithoutId(posts + [p], p.id) == posts
  {
    if posts == [] {
      assert [p][1..] == [];
    } else {
      assert (posts + [p])[1..] == posts[1..] + [p];
      DeleteUndoesInsert(posts[1..], p);
      assert [posts[0]] + posts[1..] == posts;
    }
  }
}

/** The blog application's request handlers as transitions over the User
    table, the Post table and one client's session. Each handler returns the
    outcome of the request (a redirect, a 404, or a page) in place of the
    rendered template or redirect with its flashed message. */
module Routes {
  import opened Wrappers
  import opened Passwords
  import opened Models
  import opened Queries

  datatype RequestMethod = GET | POST

  /** What the session holds once a user has logged in. */
  datatype Identity = Identity(userId: nat, username: string)

  datatype Page = IndexPage | RegisterPage | LoginPage | DashboardPage

  datatype View =
    | PostList(posts: seq<Post>)
    | DashboardList(posts: seq<Post>)
    | RegisterForm
    | LoginForm
    | CreateForm
    | EditForm(post: Post)

  datatype Response = Redirect(to: Page) | NotFound | Render(view: View)

  /** The session names a user of the table, under that user's username. */
  ghost predicate SignedIn(users: seq<User>, who: Identity)
  {
    exists u :: u in users && u.id == who.userId && u.username == who.username
  }

  class App {
    const hasher: Hasher
    var users: seq<User>
    var posts: seq<Post>
    var session: Option<Identity>

    /** The schema's constraints (unique keys, unique usernames and emails,
        every post owned by a user) and a session that names a real user. */
    ghost predicate Valid()
      reads this
    {
      && Sound(hasher)
      && UsersUnique(users)
      && PostIdsUnique(posts)
      && PostsOwned(users, posts)
      && (session.Some? ==> SignedIn(users, session.value))
      && (forall u :: u in users ==> HashedPassword(u))
    }

    /** The stored password is something the hasher produced, never a
        submitted password kept as it was. */
    ghost predicate HashedPassword(u: User)
      reads this
    {
      exists salt, password :: u.password == hasher.hash(salt, password)
    }

    /** The user `username` registered with `password`. */
    ghost predicate RegisteredWith(username: string, password: string)
      reads this
    {
      exists u, salt :: u in users && u.username == username && u.password == hasher.hash(salt, password)
    }

    /** Some user has this username and a stored hash that accepts `password`. */
    ghost predicate Authenticates(username: string, password: string)
      reads this
    {
      exists u :: u in users && u.username == username && hasher.check(u.password, password)
    }

    /** A fresh database: both tables empty, nobody logged in. */
    constructor (hasher: Hasher)
      requires Sound(hasher)
      ensures Valid()
      ensures this.hasher == hasher && users == [] && posts == [] && session == None
    {
      this.hasher := hasher;
      users, posts, session := [], [], None;
    }

    /** GET /: every post, newest first. */
    function Index(): (r: Response)
      reads this
      ensures r.Render? && r.view.PostList?
      ensures multiset(r.view.posts) == multiset(posts)
      ensures NewestFirstOrder(r.view.posts)
    {
      Render(PostList(NewestFirst(posts)))
    }

    /** GET /dashboard: the logged-in user's posts, newest first; without a
        session, a redirect to the login page. */
    function Dashboard(): (r: Response)
      reads this
      ensures session.None? ==> r == Redirect(LoginPage)
      ensures session.Some? ==>
        && r.Render? && r.view.DashboardList?
        && (forall p :: p in r.view.posts <==> p in posts && p.userId == session.value.userId)
        && NewestFirstOrder(r.view.posts)
        && r.view.posts == OwnedBy(NewestFirst(posts), session.value.userId)
    {
      match session
      case None => Redirect(LoginPage)
      case Some(who) =>
        OwnedByNewestFirst(posts, who.userId);
        NewestFirstSameRows(OwnedBy(posts, who.userId));
        Render(DashboardList(NewestFirst(OwnedBy(posts, who.userId))))
    }

    /** /register: a POST adds a user unless the username or the email is
        taken; the password is stored only as the hasher's output. */
    method Register(verb: RequestMethod, username: string, email: string, password: string, salt: string)
      returns (r: Response)
      requires Valid()
      modifies this`users
      ensures Valid()
      ensures verb == GET ==> r == Render(RegisterForm) && users == old(users)
      ensures verb == POST && Taken(old(users), username, email) ==>
        r == Redirect(RegisterPage) && users == old(users)
      ensures verb == POST && !Taken(old(users), username, email) ==>
        && r == Redirect(LoginPage)
        && users == old(users) + [User(NextId(old(users), UserKey), username, email, hasher.hash(salt, password))]
        && hasher.check(users[|users| - 1].password, password)
    {
      if verb == GET {
        return Render(RegisterForm);
      }
      var existing := UserWithNameOrEmail(users, username, email);
      if existing.Some? {
        assert users[existing.value] in users;
        return Redirect(RegisterPage);
      }
      var added := User(NextId(users, UserKey), username, email, hasher.hash(salt, password));
      assert !Taken(users, username, email) by {
        forall u | u in users ensures u.username != username && u.email != email {
          var i :| 0 <= i < |users| && users[i] == u;
        }
      }
      ghost var before := users;
      users := users + [added];
      assert forall u :: u in before ==> u in users;
      r := Redirect(LoginPage);
    }

    /** /login: a POST binds the session to the user exactly when a user with
        that username exists and the stored hash accepts the password;
        otherwise the session is left as it was. */
    method Login(verb: RequestMethod, username: string, password: string) returns (r: Response)
      requires Valid()
      modifies this`session
      ensures Valid()
      ensures verb == GET ==> r == Render(LoginForm) && session == old(session)
      ensures verb == POST && Authenticates(username, password) ==>
        && r == Redirect(DashboardPage)
        && exists u :: u in users && u.username == username && session == Some(Identity(u.id, u.username))
      ensures verb == POST && !Authenticates(username, password) ==>
        r == Redirect(LoginPage) && session == old(session)
      ensures verb == POST && RegisteredWith(username, password) ==> r == Redirect(DashboardPage)
      ensures verb == POST && Exact(hasher) && (exists other :: other != password && RegisteredWith(username, other)) ==>
        r == Redirect(LoginPage) && session == old(session)
    {
      if verb == GET {
        return Render(LoginForm);
      }
      if Exact(hasher) && exists other :: other != password && RegisteredWith(username, other) {
        var other :| other != password && RegisteredWith(username, other);
        var u, salt :| u in users && u.username == username && u.password == hasher.hash(salt, other);
        forall v | v in users && v.username == username ensures !hasher.check(v.password, password) {
          SameUsernameSameUser(v, u);
        }
      }
      var found := UserNamed(users, username);
      if found.Some? && hasher.check(users[found.value].password, password) {
        var u := users[found.value];
        session := Some(Identity(u.id, u.username));
        r := Redirect(DashboardPage);
      } else {
        forall u | u in users && u.username == username ensures !hasher.check(u.password, password) {
          var i :| 0 <= i < |users| && users[i] == u;
          assert found.Some? && i == found.value;
        }
        r := Redirect(LoginPage);
      }
    }

    /** Usernames identify users. */
    lemma SameUsernameSameUser(u: User, v: User)
      requires Valid() && u in users && v in users && u.username == v.username
      ensures u == v
    {
    }

    /** GET /logout: clears the session, whatever it held. */
    method Logout() returns (r: Response)
      requires Valid()
      modifies this`session
      ensures Valid()
      ensures r == Redirect(IndexPage) && session == None
    {
      session := None;
      r := Redirect(IndexPage);
    }

    /** /create: without a session, a redirect to login; a POST inserts a post
        owned by the session's user, keyed with a fresh id and dated `now`
        (the server clock). */
    method CreatePost(verb: RequestMethod, title: string, content: string, now: int) returns (r: Response)
      requires Valid()
      modifies this`posts
      ensures Valid()
      ensures session.None? ==> r == Redirect(LoginPage) && posts == old(posts)
      ensures session.Some? && verb == GET ==> r == Render(CreateForm) && posts == old(posts)
      ensures session.Some? && verb == POST ==>
        && r == Redirect(DashboardPage)
        && posts == old(posts) + [Post(NextId(old(posts), PostKey), title, content, now, session.value.userId)]
        && (forall q :: q in old(posts) ==> q.id != posts[|posts| - 1].id)
      ensures session.Some? && verb == POST && (forall q :: q in old(posts) ==> q.dateCreated < now) ==>
        && Heads(NewestFirst(posts), posts[|posts| - 1])
        && Heads(NewestFirst(OwnedBy(posts, session.value.userId)), posts[|posts| - 1])
    {
      if session.None? {
        return Redirect(LoginPage);
      }
      if verb == GET {
        return Render(CreateForm);
      }
      var uid := session.value.userId;
      var post := Post(NextId(posts, PostKey), title, content, now, uid);
      assert UserExists(users, uid) by {
        var u :| u in users && u.id == uid && u.username == session.value.username;
      }
      InsertKeepsConstraints(users, posts, post);
      NewPostHeadsListings(posts, post);
      posts := posts + [post];
      r := Redirect(DashboardPage);
    }

    /** /edit/<id>: checks the session, then that the post exists (404
        otherwise), then that the session's user owns it. A GET shows the
        post; a POST rewrites its title and content and nothing else. */
    method EditPost(postId: nat, verb: RequestMethod, title: string, content: string) returns (r: Response)
      requires Valid()
      modifies this`posts
      ensures Valid()
      ensures session.None? ==> r == Redirect(LoginPage) && posts == old(posts)
      ensures session.Some? && !HasPost(old(posts), postId) ==> r == NotFound && posts == old(posts)
      ensures session.Some? && HasPost(old(posts), postId) && !Owns(old(posts), postId, session.value.userId) ==>
        r == Redirect(DashboardPage) && posts == old(posts)
      ensures session.Some? && Owns(old(posts), postId, session.value.userId) && verb == GET ==>
        && posts == old(posts)
        && r.Render? && r.view.EditForm? && r.view.post in posts && r.view.post.id == postId
      ensures session.Some? && Owns(old(posts), postId, session.value.userId) && verb == POST ==>
        r == Redirect(DashboardPage) && posts == Rewritten(old(posts), postId, title, content)
    {
      if session.None? {
        return Redirect(LoginPage);
      }
      var found := PostWithId(posts, postId);
      if found.None? {
        return NotFound;
      }
      var k := found.value;
      var post := posts[k];
      KeyedRowIsUnique(posts, k);
      if post.userId != session.value.userId {
        return Redirect(DashboardPage);
      }
      if verb == GET {
        return Render(EditForm(post));
      }
      ghost var before := posts;
      posts := posts[k := post.(title := title, content := content)];
      assert posts == Rewritten(before, postId, title, content) by {
        forall i | 0 <= i < |before| ensures posts[i] == Rewritten(before, postId, title, content)[i] {
          if i != k {
            assert before[i] != before[k];
          }
        }
      }
      assert PostsOwned(users, posts) by {
        forall p | p in posts ensures UserExists(users, p.userId) {
          var i :| 0 <= i < |posts| && posts[i] == p;
          assert before[i] in before;
        }
      }
      r := Redirect(DashboardPage);
    }

    /** POST /delete/<id>: the same checks as editing, in the same order; the
        owner's request removes that one post and keeps every other. */
    method DeletePost(postId: nat) returns (r: Response)
      requires Valid()
      modifies this`posts
      ensures Valid()
      ensures session.None? ==> r == Redirect(LoginPage) && posts == old(posts)
      ensures session.Some? && !HasPost(old(posts), postId) ==> r == NotFound && posts == old(posts)
      ensures session.Some? && HasPost(old(posts), postId) && !Owns(old(posts), postId, session.value.userId) ==>
        r == Redirect(DashboardPage) && posts == old(posts)
      ensures session.Some? && Owns(old(posts), postId, session.value.userId) ==>
        && r == Redirect(DashboardPage)
        && posts == WithoutId(old(posts), postId)
        && |posts| == |old(posts)| - 1
    {
      if session.None? {
        return Redirect(LoginPage);
      }
      var found := PostWithId(posts, postId);
      if found.None? {
        return NotFound;
      }
      var k := found.value;
      KeyedRowIsUnique(posts, k);
      if posts[k].userId != session.value.userId {
        return Redirect(DashboardPage);
      }
      RemoveAtIsWithoutId(posts, k);
      RemoveAtKeepsUnique(posts, k);
      posts := posts[..k] + posts[k + 1..];
      r := Redirect(DashboardPage);
    }
  }

  /** The walk-through of a first visit: alice registers, a second account
      with her username is refused, a wrong password is refused, the right one
      logs her in, and her first post heads both the index and her dashboard. */
  method FirstVisit(h: Hasher, salt1: string, salt2: string, now: int)
    requires Sound(h) && Exact(h)
  {
    var app := new App(h);
    var r := app.Register(POST, "alice", "alice@x.com", "pw1", salt1);
    assert r == Redirect(LoginPage);
    r := app.Register(POST, "alice", "bob@x.com", "pw2", salt2);
    assert app.users[0] in app.users;
    assert r == Redirect(RegisterPage) && |app.users| == 1;
    r := app.Login(POST, "alice", "wrong");
    assert r == Redirect(LoginPage) && app.session == None;
    r := app.Login(POST, "alice", "pw1");
    assert app.users[0].username == "alice";
    assert r == Redirect(DashboardPage) && app.session == Some(Identity(1, "alice"));
    r := app.CreatePost(POST, "Hello", "World", now);
    var post := app.posts[0];
    assert post.title == "Hello" && post.userId == 1;
    assert app.Index().view.posts[0] == post;
    assert app.Dashboard().view.posts[0] == post;
  }
}

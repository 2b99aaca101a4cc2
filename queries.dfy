/** The read queries the handlers run: `.first()` on a filtered query, the
    listing ordered by creation date (newest first), and the filter by owner. */
module Queries {
  import opened Wrappers
  import opened Models

  /** Position of the first row that `matches`, or None when no row does. */
  function First<T>(rows: seq<T>, matches: T -> bool): (r: Option<nat>)
    ensures r.None? <==> forall i :: 0 <= i < |rows| ==> !matches(rows[i])
    ensures r.Some? ==> r.value < |rows| && matches(rows[r.value])
    ensures r.Some? ==> forall i :: 0 <= i < r.value ==> !matches(rows[i])
  {
    if rows == [] then None
    else if matches(rows[0]) then Some(0)
    else match First(rows[1..], matches)
      case None => None
      case Some(k) => Some(k + 1)
  }

  /** The registration lookup: a user with this username or this email. */
  function UserWithNameOrEmail(users: seq<User>, username: string, email: string): (r: Option<nat>)
    ensures r.None? <==> forall i :: 0 <= i < |users| ==> users[i].username != username && users[i].email != email
    ensures r.Some? ==> r.value < |users| && (users[r.value].username == username || users[r.value].email == email)
  {
    First(users, (u: User) => u.username == username || u.email == email)
  }

  /** The login lookup: the user with this username. */
  function UserNamed(users: seq<User>, username: string): (r: Option<nat>)
    ensures r.None? <==> forall i :: 0 <= i < |users| ==> users[i].username != username
    ensures r.Some? ==> r.value < |users| && users[r.value].username == username
  {
    First(users, (u: User) => u.username == username)
  }

  /** The lookup behind `get_or_404`: the post with this key. */
  function PostWithId(posts: seq<Post>, id: nat): (r: Option<nat>)
    ensures r.None? <==> forall i :: 0 <= i < |posts| ==> posts[i].id != id
    ensures r.Some? ==> r.value < |posts| && posts[r.value].id == id
  {
    First(posts, (p: Post) => p.id == id)
  }

  /** Newest first: creation dates never increase along the sequence. */
  ghost predicate NewestFirstOrder(s: seq<Post>)
  {
    forall i, j :: 0 <= i < j < |s| ==> s[i].dateCreated >= s[j].dateCreated
  }

  /** Places `p` in a newest-first sequence, ahead of every row that is not
      newer than it. */
  function Insert(p: Post, s: seq<Post>): (r: seq<Post>)
    ensures multiset(r) == multiset(s) + multiset{p}
  {
    if s == [] || p.dateCreated >= s[0].dateCreated then [p] + s
    else
      assert s == [s[0]] + s[1..];
      [s[0]] + Insert(p, s[1..])
  }

  /** In a newest-first sequence the head is at least as new as every row. */
  lemma HeadIsNewest(s: seq<Post>)
    requires NewestFirstOrder(s) && s != []
    ensures forall q :: q in s ==> q.dateCreated <= s[0].dateCreated
  {
  }

  /** A row at least as new as every row of a newest-first sequence may head it. */
  lemma ConsNewest(x: Post, t: seq<Post>)
    requires NewestFirstOrder(t)
    requires forall q :: q in t ==> q.dateCreated <= x.dateCreated
    ensures NewestFirstOrder([x] + t)
  {
  }

  /** Insert keeps a sequence newest first. */
  lemma {:induction false} InsertKeepsOrder(p: Post, s: seq<Post>)
    requires NewestFirstOrder(s)
    ensures NewestFirstOrder(Insert(p, s))
  {
    if s == [] {
    } else if p.dateCreated >= s[0].dateCreated {
      HeadIsNewest(s);
      ConsNewest(p, s);
    } else {
      var tail := s[1..];
      assert NewestFirstOrder(tail);
      InsertKeepsOrder(p, tail);
      var rest := Insert(p, tail);
      HeadIsNewest(s);
      forall q | q in rest ensures q.dateCreated <= s[0].dateCreated {
        assert q in multiset(rest);
        assert q == p || q in tail;
      }
      ConsNewest(s[0], rest);
    }
  }

  /** The rows ordered by `date_created` descending. Rows with equal dates come
      out later row first. */
  function NewestFirst(s: seq<Post>): (r: seq<Post>)
    ensures multiset(r) == multiset(s)
    ensures NewestFirstOrder(r)
  {
    if s == [] then []
    else
      assert s == s[..|s| - 1] + [s[|s| - 1]];
      InsertKeepsOrder(s[|s| - 1], NewestFirst(s[..|s| - 1]));
      Insert(s[|s| - 1], NewestFirst(s[..|s| - 1]))
  }

  /** Ordering neither adds nor drops a row. */
  lemma NewestFirstSameRows(s: seq<Post>)
    ensures forall p :: p in NewestFirst(s) <==> p in s
  {
    var r := NewestFirst(s);
    forall p ensures p in r <==> p in s {
      assert p in r <==> p in multiset(r);
    }
  }

  /** The rows whose `user_id` is `uid`, in the order of `s`. */
  function OwnedBy(s: seq<Post>, uid: nat): (r: seq<Post>)
    ensures forall p :: p in r <==> p in s && p.userId == uid
    ensures |r| <= |s|
  {
    if s == [] then []
    else (if s[0].userId == uid then [s[0]] else []) + OwnedBy(s[1..], uid)
  }

  /** The filter keeps each of the user's posts exactly as often as the table
      holds it, and no other post. */
  lemma {:induction false} OwnedByCounts(s: seq<Post>, uid: nat)
    ensures forall p :: multiset(OwnedBy(s, uid))[p] == if p.userId == uid then multiset(s)[p] else 0
  {
    if s != [] {
      OwnedByCounts(s[1..], uid);
      assert s == [s[0]] + s[1..];
    }
  }

  lemma {:induction false} OwnedByAppend(s: seq<Post>, p: Post, uid: nat)
    ensures OwnedBy(s + [p], uid) == OwnedBy(s, uid) + (if p.userId == uid then [p] else [])
  {
    if s == [] {
      assert [p][1..] == [];
    } else {
      assert s + [p] == [s[0]] + (s[1..] + [p]);
      assert s == [s[0]] + s[1..];
      OwnedByAppend(s[1..], p, uid);
      OwnedByCons(s[0], s[1..] + [p], uid);
      OwnedByCons(s[0], s[1..], uid);
    }
  }

  /** OwnedBy on a sequence with a known head. */
  lemma OwnedByCons(x: Post, t: seq<Post>, uid: nat)
    ensures OwnedBy([x] + t, uid) == (if x.userId == uid then [x] else []) + OwnedBy(t, uid)
  {
  }

  /** Filtering by owner commutes with inserting one row into a newest-first
      sequence. */
  lemma {:induction false} OwnedByInsert(p: Post, s: seq<Post>, uid: nat)
    requires NewestFirstOrder(s)
    ensures OwnedBy(Insert(p, s), uid) == if p.userId == uid then Insert(p, OwnedBy(s, uid)) else OwnedBy(s, uid)
  {
    if s == [] || p.dateCreated >= s[0].dateCreated {
      OwnedByInsertAtHead(p, s, uid);
    } else {
      var tail := s[1..];
      assert NewestFirstOrder(tail);
      OwnedByInsert(p, tail, uid);
      OwnedByInsertBehind(p, s, uid);
    }
  }

  lemma OwnedByInsertAtHead(p: Post, s: seq<Post>, uid: nat)
    requires NewestFirstOrder(s)
    requires s == [] || p.dateCreated >= s[0].dateCreated
    ensures OwnedBy(Insert(p, s), uid) == if p.userId == uid then Insert(p, OwnedBy(s, uid)) else OwnedBy(s, uid)
  {
    assert Insert(p, s) == [p] + s;
    OwnedByCons(p, s, uid);
    var o := OwnedBy(s, uid);
    if o != [] {
      HeadIsNewest(s);
      assert o[0] in s;
    }
  }

  lemma OwnedByInsertBehind(p: Post, s: seq<Post>, uid: nat)
    requires s != [] && p.dateCreated < s[0].dateCreated
    requires OwnedBy(Insert(p, s[1..]), uid) == if p.userId == uid then Insert(p, OwnedBy(s[1..], uid)) else OwnedBy(s[1..], uid)
    ensures OwnedBy(Insert(p, s), uid) == if p.userId == uid then Insert(p, OwnedBy(s, uid)) else OwnedBy(s, uid)
  {
    var head, tail := s[0], s[1..];
    var rest := Insert(p, tail);
    var ot := OwnedBy(tail, uid);
    assert s == [head] + tail;
    assert Insert(p, s) == [head] + rest;
    OwnedByCons(head, tail, uid);
    OwnedByCons(head, rest, uid);
    if head.userId == uid {
      assert OwnedBy(s, uid) == [head] + ot;
      assert OwnedBy(Insert(p, s), uid) == [head] + OwnedBy(rest, uid);
      if p.userId == uid {
        assert ([head] + ot)[1..] == ot;
        assert Insert(p, [head] + ot) == [head] + Insert(p, ot);
      }
    } else {
      assert OwnedBy(s, uid) == ot;
      assert OwnedBy(Insert(p, s), uid) == OwnedBy(rest, uid);
    }
  }

  /** The owner's posts in newest-first order are the newest-first listing
      restricted to that owner: the dashboard shows the index's rows for the
      user, in the index's order. */
  lemma {:induction false} OwnedByNewestFirst(s: seq<Post>, uid: nat)
    ensures OwnedBy(NewestFirst(s), uid) == NewestFirst(OwnedBy(s, uid))
  {
    if s != [] {
      var init, last := s[..|s| - 1], s[|s| - 1];
      var sorted := NewestFirst(init);
      assert s == init + [last];
      assert NewestFirst(s) == Insert(last, sorted);
      OwnedByNewestFirst(init, uid);
      OwnedByInsert(last, sorted, uid);
      OwnedByAppend(init, last, uid);
      if last.userId == uid {
        var o := OwnedBy(init, uid) + [last];
        assert o[..|o| - 1] == OwnedBy(init, uid) && o[|o| - 1] == last;
        assert NewestFirst(o) == Insert(last, NewestFirst(OwnedBy(init, uid)));
      } else {
        assert OwnedBy(s, uid) == OwnedBy(init, uid);
      }
    }
  }

  /** The listing starts with `p`. */
  ghost predicate Heads(listing: seq<Post>, p: Post)
  {
    listing != [] && listing[0] == p
  }

  /** A row newer than every stored row heads the newest-first listing once
      it is appended to the table, whatever order rows with equal dates take. */
  lemma AppendedNewestHeads(s: seq<Post>, p: Post)
    requires forall q :: q in s ==> q.dateCreated < p.dateCreated
    ensures Heads(NewestFirst(s + [p]), p)
  {
    var t := s + [p];
    assert t[..|t| - 1] == s;
    var n := NewestFirst(s);
    if n != [] {
      assert n[0] in multiset(s);
    }
  }

  /** A post newer than every stored one heads both the public listing and its
      owner's listing. */
  lemma NewPostHeadsListings(s: seq<Post>, p: Post)
    ensures (forall q :: q in s ==> q.dateCreated < p.dateCreated) ==>
      && Heads(NewestFirst(s + [p]), p)
      && Heads(NewestFirst(OwnedBy(s + [p], p.userId)), p)
  {
    if forall q :: q in s ==> q.dateCreated < p.dateCreated {
      AppendedNewestHeads(s, p);
      OwnedByAppend(s, p, p.userId);
      AppendedNewestHeads(OwnedBy(s, p.userId), p);
    }
  }
}
